/** Fee arithmetic shared by the ledger and the wallet, in the 64-bit integers
    both services compute it in. The services are built in release mode, where
    a product that leaves the i64 range wraps instead of trapping.
 */
module Fees {

  const I64_MAX: int := 0x7FFF_FFFF_FFFF_FFFF
  const TWO_64: int := 0x1_0000_0000_0000_0000
  const BPS: int := 10_000

  // aethyr-ledger
  const LEDGER_TRANSFER: int := 300
  const LEDGER_SUBSCRIPTION: int := 150
  const LEDGER_TIP: int := 100
  const LEDGER_DEPOSIT: int := 250
  // ain-soph
  const WALLET_DEPOSIT: int := 250
  const WALLET_TRANSFER: int := 300
  const WALLET_TIP: int := 100
  const WALLET_WITHDRAWAL: int := 200

  /** The largest amount whose product with every scheduled rate stays in range. */
  const EXACT_UP_TO: int := I64_MAX / 300

  predicate Scheduled(bps: int) {
    bps == 100 || bps == 150 || bps == 200 || bps == 250 || bps == 300
  }

  function Wrap64(x: int): (r: int) {
    var m := x % TWO_64;
    if m > I64_MAX then m - TWO_64 else m
  }

  /** Integer division as the services do it: toward zero. */
  function TruncDiv(x: int, d: int): int
    requires d > 0
  {
    if x >= 0 then x / d else -((-x) / d)
  }

  /** fee_for and compute_fee. */
  function FeeFor(amount: int, bps: int): int {
    TruncDiv(Wrap64(amount * bps), BPS)
  }

  /** The fee the schedule means: the rate of the amount, rounded down. */
  function ExactFee(amount: int, bps: int): int {
    amount * bps / BPS
  }

  /** What release-mode arithmetic computes: the one 64-bit value that differs from the
      product by a multiple of 2^64, divided by 10 000 toward zero.
   */
  lemma {:induction false} FeeForExactly(amount: int, bps: int) returns (wrapped: int, turns: int)
    ensures amount * bps == wrapped + turns * 0x1_0000_0000_0000_0000
    ensures -0x8000_0000_0000_0000 <= wrapped < 0x8000_0000_0000_0000
    ensures var fee := FeeFor(amount, bps);
            if wrapped >= 0 then 10_000 * fee <= wrapped < 10_000 * (fee + 1)
            else 10_000 * (fee - 1) < wrapped <= 10_000 * fee
  {
    wrapped := Wrap64(amount * bps);
    turns := amount * bps / TWO_64 + if amount * bps % TWO_64 > I64_MAX then 1 else 0;
  }

  /** The computed fee is the scheduled one exactly while the product fits. */
  lemma {:induction false} FeeIsExactIff(amount: int, bps: int)
    requires 0 < amount <= I64_MAX && Scheduled(bps)
    ensures FeeFor(amount, bps) == ExactFee(amount, bps) <==> amount * bps <= I64_MAX
    ensures amount <= EXACT_UP_TO ==> FeeFor(amount, bps) == ExactFee(amount, bps)
  {
  }

  /** While the fee is exact, at least one unit of any payment reaches the payee. */
  lemma {:induction false} NetIsPositive(amount: int, bps: int)
    requires 0 < amount && Scheduled(bps) && amount * bps <= I64_MAX
    ensures 0 <= FeeFor(amount, bps) < amount
  {
  }

  lemma {:induction false} WrappedShortfall(amount: int, bps: int) returns (n: int)
    requires Scheduled(bps)
    ensures bps * (I64_MAX + 1 - amount) + Wrap64(amount * bps) == n * TWO_64
  {
    var q := amount * bps / TWO_64;
    n := bps / 2 - q + if amount * bps % TWO_64 > I64_MAX then -1 else 0;
  }

  /** Beyond that range the fee may even be negative, but it stays small: neither
      amount + fee nor amount - fee leaves the positive i64 range. */
  lemma {:induction false} FeeNeverOverflowsTheSum(amount: int, bps: int)
    requires 0 < amount <= I64_MAX && Scheduled(bps)
    ensures 0 < amount + FeeFor(amount, bps) <= I64_MAX
    ensures 0 < amount - FeeFor(amount, bps) <= I64_MAX
    ensures -922_337_203_685_477 <= FeeFor(amount, bps) <= 922_337_203_685_477
  {
    var w := Wrap64(amount * bps);
    if amount * bps <= I64_MAX {
      NetIsPositive(amount, bps);
    } else {
      // amount is d short of 2^63, and the rate times 2^63 is a multiple of 2^64
      var d := I64_MAX + 1 - amount;
      var n := WrappedShortfall(amount, bps);
      assert -BPS * d < w < BPS * d;
    }
  }

  // ── Splitting a payment ────────────────────────────────────────────────────

  function Sum(parts: seq<int>): int {
    if parts == [] then 0 else parts[0] + Sum(parts[1..])
  }

  function SumOfFees(parts: seq<int>, bps: int): int {
    if parts == [] then 0 else ExactFee(parts[0], bps) + SumOfFees(parts[1..], bps)
  }

  lemma {:induction false} FeeOfSum(a: int, b: int, bps: int)
    ensures ExactFee(a, bps) + ExactFee(b, bps) <= ExactFee(a + b, bps) <= ExactFee(a, bps) + ExactFee(b, bps) + 1
  {
  }

  /** Splitting one payment into k parts never raises the total fee, and saves at most k - 1 units. */
  lemma {:induction false} SplittingSavesLittle(parts: seq<int>, bps: int)
    requires parts != []
    ensures SumOfFees(parts, bps) <= ExactFee(Sum(parts), bps) <= SumOfFees(parts, bps) + |parts| - 1
  {
    if |parts| > 1 {
      SplittingSavesLittle(parts[1..], bps);
      FeeOfSum(parts[0], Sum(parts[1..]), bps);
    } else {
      assert Sum(parts[1..]) == 0;
    }
  }

  function SumOfComputed(parts: seq<int>, bps: int): int {
    if parts == [] then 0 else FeeFor(parts[0], bps) + SumOfComputed(parts[1..], bps)
  }

  predicate AllPositive(parts: seq<int>) {
    forall i :: 0 <= i < |parts| ==> parts[i] > 0
  }

  lemma {:induction false} PartsFit(first: int, rest: int, bps: int)
    requires first > 0 && rest >= 0 && Scheduled(bps) && (first + rest) * bps <= I64_MAX
    ensures first <= I64_MAX && first * bps <= I64_MAX && rest * bps <= I64_MAX
  {
  }

  lemma {:induction false} ComputedFeesAreExact(parts: seq<int>, bps: int)
    requires AllPositive(parts) && Scheduled(bps) && Sum(parts) * bps <= I64_MAX
    ensures Sum(parts) >= 0 && SumOfComputed(parts, bps) == SumOfFees(parts, bps)
  {
    if parts != [] {
      PartsAreSmaller(parts[1..]);
      PartsFit(parts[0], Sum(parts[1..]), bps);
      FeeIsExactIff(parts[0], bps);
      ComputedFeesAreExact(parts[1..], bps);
    }
  }

  lemma {:induction false} PartsAreSmaller(parts: seq<int>)
    requires AllPositive(parts)
    ensures Sum(parts) >= |parts|
  {
    if parts != [] {
      PartsAreSmaller(parts[1..]);
    }
  }

  /** The same of the fees the services compute, in their 64 bits, for any payment whose own fee is exact. */
  lemma {:induction false} SplittingComputedFees(parts: seq<int>, bps: int)
    requires parts != [] && AllPositive(parts) && Scheduled(bps) && Sum(parts) * bps <= I64_MAX
    ensures SumOfComputed(parts, bps) <= FeeFor(Sum(parts), bps) <= SumOfComputed(parts, bps) + |parts| - 1
  {
    PartsAreSmaller(parts);
    ComputedFeesAreExact(parts, bps);
    SplittingSavesLittle(parts, bps);
    FeeIsExactIff(Sum(parts), bps);
  }

  lemma {:induction false} FeesOfRepeated(k: nat, rest: seq<int>, bps: int)
    requires |rest| == k && forall i :: 0 <= i < k ==> rest[i] == 33
    ensures Sum(rest) == 33 * k && (bps == 300 ==> SumOfFees(rest, bps) == 0)
  {
    if k > 0 {
      FeesOfRepeated(k - 1, rest[1..], bps);
    }
  }

  /** The bound is met: a hundred payments of 33 units pay no transfer fee, one of 3300 pays 99. */
  lemma {:induction false} SplittingBoundIsTight(parts: seq<int>)
    requires |parts| == 100 && forall i :: 0 <= i < 100 ==> parts[i] == 33
    ensures ExactFee(Sum(parts), LEDGER_TRANSFER) == SumOfFees(parts, LEDGER_TRANSFER) + |parts| - 1
  {
    FeesOfRepeated(100, parts, LEDGER_TRANSFER);
  }
}
