/** The Aethyr Ledger: account rows, the singleton supply row and the
    append-only event log, with every handler as a function of the state it
    finds, and the facts that hold in every state a run can reach.

    The event log is the specification: an account row is what replaying the
    log yields for its identity.
 */
module Ledger {
  import opened Sums
  import opened Fees

  /** A resolved identity. Zero is the nil UUID, which names the platform's fee sink. */
  type Pial = int
  const TREASURY: Pial := 0

  datatype Account = Account(balance: int, earned: int, spent: int, minted: int, burned: int, seqNo: nat)

  const EMPTY_ACCOUNT: Account := Account(0, 0, 0, 0, 0, 0)

  datatype Kind = Purchase | Mint | RelayReward | Transfer | Tip | Subscription | CreatorPayout | Burn {
    predicate IsTransfer() {
      Transfer? || Tip? || Subscription? || CreatorPayout?
    }

    function FeeRate(): int {
      match this
      case Tip => LEDGER_TIP
      case Subscription => LEDGER_SUBSCRIPTION
      case _ => LEDGER_TRANSFER
    }
  }

  datatype Event = Event(kind: Kind, from: Option<Pial>, to: Option<Pial>, amount: int, fee: int,
                         seqFrom: Option<nat>, key: Option<string>)

  datatype Supply = Supply(total: int, circulating: int, minted: int, burned: int)

  datatype State = State(accounts: map<Pial, Account>, supply: Supply, events: seq<Event>)

  datatype Refusal = BadRequest | InsufficientBalance | Database
  datatype Outcome = Posted(event: Event) | Refused(why: Refusal)

  /** What migrate leaves in an empty database. */
  const GENESIS: State := State(map[TREASURY := EMPTY_ACCOUNT], Supply(0, 0, 0, 0), [])

  // ── Statements ─────────────────────────────────────────────────────────────

  /** ensure_account: INSERT … ON CONFLICT DO NOTHING. */
  function WithRow(s: State, p: Pial): (t: State)
    ensures p in t.accounts
  {
    if p in s.accounts then s else s.(accounts := s.accounts[p := EMPTY_ACCOUNT])
  }

  /** UPDATE … SET balance + x, total_earned + x. A key with no row matches nothing. */
  function Credited(accounts: map<Pial, Account>, p: Pial, x: int): map<Pial, Account> {
    if p in accounts then accounts[p := EarnBy(accounts[p], x)] else accounts
  }

  function EarnBy(a: Account, x: int): Account {
    a.(balance := a.balance + x, earned := a.earned + x)
  }

  function SpendBy(a: Account, x: int): Account {
    a.(balance := a.balance - x, spent := a.spent + x)
  }

  function SendBy(a: Account, x: int): Account {
    SpendBy(a, x).(seqNo := a.seqNo + 1)
  }

  function MintBy(a: Account, x: int): Account {
    EarnBy(a, x).(minted := a.minted + x)
  }

  function BurnBy(a: Account, x: int): Account {
    SpendBy(a, x).(burned := a.burned + x)
  }

  function Max(a: int, b: int): int {
    if a > b then a else b
  }

  /** The UNIQUE constraint on idempotency_key; NULL keys never conflict. */
  predicate KeyFree(events: seq<Event>, key: Option<string>) {
    key.Some? ==> forall i :: 0 <= i < |events| ==> events[i].key != key
  }

  // ── Handlers ───────────────────────────────────────────────────────────────
  // `accepted` says whether the database accepts the transaction beyond the
  // constraints written out here; a lost connection or an overflowing BIGINT
  // column refuses it and rolls it back.

  /** Debit the sender, credit the receiver, route a fee to the treasury: three updates in this order. */
  function Settled(accounts: map<Pial, Account>, from: Pial, to: Pial, amount: int, fee: int): map<Pial, Account>
    requires from in accounts
  {
    var debited := accounts[from := SendBy(accounts[from], amount + fee)];
    var paid := Credited(debited, to, amount);
    if fee > 0 then Credited(paid, TREASURY, fee) else paid
  }

  /** The transfer's transaction, once both rows exist. */
  function TransferTx(s: State, kind: Kind, from: Pial, to: Pial, amount: int, key: Option<string>, accepted: bool)
    : (State, Outcome)
    requires from in s.accounts
  {
    var fee := FeeFor(amount, kind.FeeRate());
    var sender := s.accounts[from];
    if sender.balance < amount + fee then (s, Refused(InsufficientBalance))
    else if !accepted || !KeyFree(s.events, key) then (s, Refused(Database))
    else
      var event := Event(kind, Some(from), Some(to), amount, fee, Some(sender.seqNo + 1), key);
      (s.(accounts := Settled(s.accounts, from, to, amount, fee), events := s.events + [event]), Posted(event))
  }

  function TransferResult(s: State, kind: Kind, from: Pial, to: Pial, amount: int, key: Option<string>, accepted: bool)
    : (State, Outcome)
  {
    if !kind.IsTransfer() || amount <= 0 || from == to then (s, Refused(BadRequest))
    else TransferTx(WithRow(WithRow(s, from), to), kind, from, to, amount, key, accepted)
  }

  /** mint_internal's transaction, on a row that exists. */
  function MintTx(s: State, kind: Kind, to: Pial, amount: int, accepted: bool): (State, Outcome)
    requires to in s.accounts
  {
    if amount <= 0 || !accepted then (s, Refused(Database))
    else
      var event := Event(kind, None, Some(to), amount, 0, None, None);
      (State(s.accounts[to := MintBy(s.accounts[to], amount)],
             Supply(s.supply.total + amount, s.supply.circulating + amount, s.supply.minted + amount, s.supply.burned),
             s.events + [event]),
       Posted(event))
  }

  /** ensure_account followed by mint_internal, the shared core of fund, reward and admin mint. */
  function MintResult(s: State, kind: Kind, to: Pial, amount: int, accepted: bool): (State, Outcome) {
    MintTx(WithRow(s, to), kind, to, amount, accepted)
  }

  function BalanceOf(s: State, p: Pial): int {
    if p in s.accounts then s.accounts[p].balance else 0
  }

  /** burn's first half reads the balance outside any transaction. */
  predicate BurnMayStart(s: State, from: Pial, amount: int) {
    amount > 0 && BalanceOf(s, from) >= amount
  }

  /** burn's second half, run on whatever the account holds by then. CHECK (balance_uaet >= 0) guards it. */
  function BurnResult(s: State, from: Pial, amount: int, key: Option<string>, accepted: bool): (State, Outcome) {
    var accounts := if from in s.accounts then s.accounts[from := BurnBy(s.accounts[from], amount)] else s.accounts;
    if from in s.accounts && s.accounts[from].balance < amount then (s, Refused(Database))
    else if amount <= 0 || !accepted || !KeyFree(s.events, key) then (s, Refused(Database))
    else
      var event := Event(Burn, Some(from), None, amount, 0, None, key);
      (State(accounts,
             Supply(Max(0, s.supply.total - amount), Max(0, s.supply.circulating - amount),
                    s.supply.minted, s.supply.burned + amount),
             s.events + [event]),
       Posted(event))
  }

  /** fund_wallet: cents to micro-AET after the deposit fee, in i64 arithmetic. */
  function FundedAmount(cents: int): int {
    Wrap64((cents - FeeFor(cents, LEDGER_DEPOSIT)) * 100)
  }

  // ── Who gains and who pays ─────────────────────────────────────────────────

  lemma {:induction false} SettledMoves(s: State, from: Pial, to: Pial, amount: int, fee: int, p: Pial)
    requires from in s.accounts && to in s.accounts && TREASURY in s.accounts
    ensures BalanceOf(s.(accounts := Settled(s.accounts, from, to, amount, fee)), p)
         == BalanceOf(s, p) + (if p == to then amount else 0) + (if p == TREASURY then Max(0, fee) else 0)
                            - (if p == from then amount + fee else 0)
  {
  }

  /** A transfer posts exactly when it is well formed, its key is new, the
      sender can pay amount and fee, and the database accepts it; then the
      sender pays amount and fee, the receiver gains the amount and the treasury
      the fee, also when the treasury is sender or receiver. */
  lemma {:induction false} TransferMovesExactly(s: State, kind: Kind, from: Pial, to: Pial, amount: int, key: Option<string>,
                             accepted: bool, p: Pial)
    requires TREASURY in s.accounts
    ensures var (t, outcome) := TransferResult(s, kind, from, to, amount, key, accepted);
            var fee := FeeFor(amount, kind.FeeRate());
            && (outcome.Posted? <==> kind.IsTransfer() && amount > 0 && from != to && accepted
                                     && KeyFree(s.events, key) && BalanceOf(s, from) >= amount + fee)
            && t.events == s.events + (if outcome.Posted? then [outcome.event] else [])
            && BalanceOf(t, p) == BalanceOf(s, p)
                 + (if outcome.Posted? && p == to then amount else 0)
                 + (if outcome.Posted? && p == TREASURY then Max(0, fee) else 0)
                 - (if outcome.Posted? && p == from then amount + fee else 0)
  {
    if kind.IsTransfer() && amount > 0 && from != to {
      var ready := WithRow(WithRow(s, from), to);
      assert BalanceOf(ready, from) == BalanceOf(s, from) && BalanceOf(ready, p) == BalanceOf(s, p);
      SettledMoves(ready, from, to, amount, FeeFor(amount, kind.FeeRate()), p);
    }
  }

  /** Minting and burning change one balance and the supply by one amount, or nothing at all. */
  lemma {:induction false} MintMovesExactly(s: State, kind: Kind, to: Pial, amount: int, accepted: bool, p: Pial)
    ensures var (t, outcome) := MintResult(s, kind, to, amount, accepted);
            var gained := if outcome.Posted? then amount else 0;
            && (outcome.Posted? <==> amount > 0 && accepted)
            && BalanceOf(t, p) == BalanceOf(s, p) + (if p == to then gained else 0)
            && t.supply.minted == s.supply.minted + gained && t.supply.burned == s.supply.burned
            && t.supply.total == s.supply.total + gained && t.supply.circulating == s.supply.circulating + gained
  {
  }

  lemma {:induction false} BurnMovesExactly(s: State, from: Pial, amount: int, key: Option<string>, accepted: bool,
      p: Pial)
    requires from in s.accounts && s.accounts[from].balance <= s.supply.total
    ensures var (t, outcome) := BurnResult(s, from, amount, key, accepted);
            var lost := if outcome.Posted? then amount else 0;
            && (outcome.Posted? <==> 0 < amount <= BalanceOf(s, from) && accepted && KeyFree(s.events, key))
            && BalanceOf(t, p) == BalanceOf(s, p) - (if p == from then lost else 0)
            && t.supply.burned == s.supply.burned + lost && t.supply.minted == s.supply.minted
            && t.supply.total == s.supply.total - lost
            && t.supply.circulating == (if outcome.Posted? then Max(0, s.supply.circulating - lost) else s.supply.circulating)
  {
  }

  // ── What is written, column by column ──────────────────────────────────────

  /** An identity's row, or the empty row it would start with. */
  function RowOf(s: State, p: Pial): Account {
    if p in s.accounts then s.accounts[p] else Account(0, 0, 0, 0, 0, 0)
  }

  lemma {:induction false} SettledRow(accounts: map<Pial, Account>, from: Pial, to: Pial, amount: int, fee: int, p: Pial)
    requires from in accounts && to in accounts && TREASURY in accounts && from != to && p in accounts
    ensures var a := accounts[p];
            var out := if p == from then amount + fee else 0;
            var gain := (if p == to then amount else 0) + (if p == TREASURY then Max(0, fee) else 0);
            && Settled(accounts, from, to, amount, fee).Keys == accounts.Keys
            && Settled(accounts, from, to, amount, fee)[p] ==
                 Account(a.balance + gain - out, a.earned + gain, a.spent + out, a.minted, a.burned,
                         a.seqNo + if p == from then 1 else 0)
  {
  }

  /** The one event a transfer appends says what was asked for, at the schedule's rate,
      under the sender's next number and the caller's key; a refusal names the first
      guard that failed, appends nothing and leaves every known row as it was.
   */
  lemma {:induction false} TransferRecordsExactly(s: State, kind: Kind, from: Pial, to: Pial, amount: int,
      key: Option<string>, accepted: bool)
    ensures var (t, outcome) := TransferResult(s, kind, from, to, amount, key, accepted);
            var fee := FeeFor(amount, if kind.Tip? then 100 else if kind.Subscription? then 150 else 300);
            var asked := kind in {Transfer, Tip, Subscription, CreatorPayout} && amount > 0 && from != to;
            var used := key.Some? && exists i :: 0 <= i < |s.events| && s.events[i].key == key;
            && outcome == (if !asked then Refused(BadRequest)
                           else if RowOf(s, from).balance < amount + fee then Refused(InsufficientBalance)
                           else if used || !accepted then Refused(Database)
                           else Posted(Event(kind, Some(from), Some(to), amount, fee, Some(RowOf(s, from).seqNo + 1), key)))
            && t.events == s.events + (if outcome.Posted? then [outcome.event] else [])
            && t.accounts.Keys == s.accounts.Keys + (if asked then {from, to} else {})
            && t.supply == s.supply
  {
    var t := TransferResult(s, kind, from, to, amount, key, accepted).0;
    if TransferResult(s, kind, from, to, amount, key, accepted).1.Posted? {
      assert t.accounts.Keys == WithRow(WithRow(s, from), to).accounts.Keys;
    }
  }

  /** Every column of every row after a transfer, with the treasury possibly sender or receiver. */
  lemma {:induction false} TransferRowExactly(s: State, kind: Kind, from: Pial, to: Pial, amount: int,
      key: Option<string>, accepted: bool, p: Pial)
    requires TREASURY in s.accounts
    ensures var (t, outcome) := TransferResult(s, kind, from, to, amount, key, accepted);
            var a := RowOf(s, p);
            var out := if outcome.Posted? && p == from then amount + outcome.event.fee else 0;
            var gain := if outcome.Posted? then (if p == to then amount else 0) + (if p == 0 then Max(0, outcome.event.fee) else 0)
                        else 0;
            RowOf(t, p) == Account(a.balance + gain - out, a.earned + gain, a.spent + out, a.minted, a.burned,
                                   a.seqNo + if outcome.Posted? && p == from then 1 else 0)
  {
    var ready := WithRow(WithRow(s, from), to);
    assert RowOf(ready, p) == RowOf(s, p);
    if TransferResult(s, kind, from, to, amount, key, accepted).1.Posted? && p in ready.accounts {
      SettledRow(ready.accounts, from, to, amount, FeeFor(amount, kind.FeeRate()), p);
    }
  }

  lemma {:induction false} MintWritesExactly(s: State, kind: Kind, to: Pial, amount: int, accepted: bool, p: Pial)
    ensures var (t, outcome) := MintResult(s, kind, to, amount, accepted);
            var a := RowOf(s, p);
            var gain := if outcome.Posted? && p == to then amount else 0;
            && outcome == (if amount <= 0 || !accepted then Refused(Database)
                           else Posted(Event(kind, None, Some(to), amount, 0, None, None)))
            && t.events == s.events + (if outcome.Posted? then [outcome.event] else [])
            && t.accounts.Keys == s.accounts.Keys + {to}
            && RowOf(t, p) == Account(a.balance + gain, a.earned + gain, a.spent, a.minted + gain, a.burned, a.seqNo)
  {
  }

  lemma {:induction false} BurnWritesExactly(s: State, from: Pial, amount: int, key: Option<string>, accepted: bool,
      p: Pial)
    ensures var (t, outcome) := BurnResult(s, from, amount, key, accepted);
            var a := RowOf(s, p);
            var out := if outcome.Posted? && p == from && from in s.accounts then amount else 0;
            var used := key.Some? && exists i :: 0 <= i < |s.events| && s.events[i].key == key;
            && outcome == (if (from in s.accounts && s.accounts[from].balance < amount) || amount <= 0 || used || !accepted then Refused(Database)
                           else Posted(Event(Burn, Some(from), None, amount, 0, None, key)))
            && t.events == s.events + (if outcome.Posted? then [outcome.event] else [])
            && t.accounts.Keys == s.accounts.Keys
            && RowOf(t, p) == Account(a.balance - out, a.earned, a.spent + out, a.minted, a.burned + out, a.seqNo)
  {
  }

  // ── Runs ───────────────────────────────────────────────────────────────────

  datatype BurnRequest = BurnRequest(from: Pial, amount: int, key: Option<string>)

  /** The database, and the burns that have read a sufficient balance but not yet run their transaction. */
  datatype World = World(db: State, burning: multiset<BurnRequest>)

  datatype Step =
    | EnsureStep(p: Pial)
    | TransferStep(kind: Kind, from: Pial, to: Pial, amount: int, key: Option<string>, accepted: bool)
    | FundStep(p: Pial, cents: int, accepted: bool)
    | RewardStep(p: Pial, amount: int, accepted: bool)
    | MintStep(p: Pial, amount: int, accepted: bool)
    | BurnReadStep(burn: BurnRequest)
    | BurnCommitStep(burn: BurnRequest, accepted: bool)

  function Next(w: World, step: Step): World {
    match step
    case EnsureStep(p) => w.(db := WithRow(w.db, p))
    case TransferStep(kind, from, to, amount, key, accepted) =>
      w.(db := TransferResult(w.db, kind, from, to, amount, key, accepted).0)
    case FundStep(p, cents, accepted) =>
      if cents <= 0 then w else w.(db := MintResult(w.db, Purchase, p, FundedAmount(cents), accepted).0)
    case RewardStep(p, amount, accepted) =>
      if amount <= 0 then w else w.(db := MintResult(w.db, RelayReward, p, amount, accepted).0)
    case MintStep(p, amount, accepted) =>
      if amount <= 0 then w else w.(db := MintResult(w.db, Mint, p, amount, accepted).0)
    case BurnReadStep(b) =>
      if BurnMayStart(w.db, b.from, b.amount) then w.(burning := w.burning + multiset{b}) else w
    case BurnCommitStep(b, accepted) =>
      if b !in w.burning then w
      else World(BurnResult(w.db, b.from, b.amount, b.key, accepted).0, w.burning - multiset{b})
  }

  function Run(w: World, steps: seq<Step>): World
    decreases |steps|
  {
    if steps == [] then w else Run(Next(w, steps[0]), steps[1..])
  }

  /** A run is its steps one after the other. */
  lemma {:induction false} RunOfMore(w: World, steps: seq<Step>, last: Step)
    ensures Run(w, []) == w && Run(w, steps + [last]) == Next(Run(w, steps), last)
    decreases |steps|
  {
    if steps == [] {
      assert [last][1..] == [] && [] + [last] == [last];
    } else {
      RunOfMore(Next(w, steps[0]), steps[1..], last);
      assert (steps + [last])[1..] == steps[1..] + [last];
    }
  }

  // ── What each step leaves in the log ───────────────────────────────────────

  /** The event e carries the request of the step that posted it. */
  predicate Records(e: Event, step: Step) {
    match step
    case TransferStep(kind, from, to, amount, key, _) =>
      e.kind == kind && e.from == Some(from) && e.to == Some(to) && e.amount == amount && e.key == key
    case FundStep(p, cents, _) =>
      e.kind == Purchase && e.from == None && e.to == Some(p) && e.amount == FundedAmount(cents) && e.fee == 0 && e.key == None
    case RewardStep(p, amount, _) =>
      e.kind == RelayReward && e.from == None && e.to == Some(p) && e.amount == amount && e.fee == 0 && e.key == None
    case MintStep(p, amount, _) =>
      e.kind == Mint && e.from == None && e.to == Some(p) && e.amount == amount && e.fee == 0 && e.key == None
    case BurnCommitStep(b, _) =>
      e.kind == Burn && e.from == Some(b.from) && e.to == None && e.amount == b.amount && e.fee == 0 && e.key == b.key
    case _ => false
  }

  /** A step leaves the log alone or appends the one event that records its request. */
  lemma {:induction false} StepRecordsItsRequest(w: World, step: Step)
    ensures var before, after := w.db.events, Next(w, step).db.events;
            after == before || (|after| == |before| + 1 && before < after && Records(after[|before|], step))
  {
    if step.TransferStep? {
      TransferRecordsExactly(w.db, step.kind, step.from, step.to, step.amount, step.key, step.accepted);
    }
  }

  /** A mint-like step posts exactly when its checks pass, and opens a row once they do. */
  predicate MintsIf(w: World, next: World, p: Pial, asked: bool, posts: bool) {
    && next.burning == w.burning
    && (next.db.events != w.db.events <==> asked && posts)
    && next.db.accounts.Keys == w.db.accounts.Keys + (if asked then {p} else {})
    && (!asked ==> next == w)
  }

  /** When each step posts, the rows it opens, and which burns are still to come. */
  lemma {:induction false} StepPostsExactly(w: World, step: Step)
    ensures var next := Next(w, step);
            match step
            case EnsureStep(p) =>
              && NothingPosted(w.db, next.db) && next.burning == w.burning
              && next.db.accounts.Keys == w.db.accounts.Keys + {p}
            case TransferStep(kind, from, to, amount, key, accepted) =>
              && next.burning == w.burning
              && (next.db.events != w.db.events <==> TransferResult(w.db, kind, from, to, amount, key, accepted).1.Posted?)
            case FundStep(p, cents, accepted) => MintsIf(w, next, p, cents > 0, FundedAmount(cents) > 0 && accepted)
            case RewardStep(p, amount, accepted) => MintsIf(w, next, p, amount > 0, accepted)
            case MintStep(p, amount, accepted) => MintsIf(w, next, p, amount > 0, accepted)
            case BurnReadStep(b) => next.db == w.db
            case BurnCommitStep(b, accepted) =>
              && next.burning == w.burning - multiset{b}
              && (next.db.events != w.db.events <==>
                    b in w.burning && BurnResult(w.db, b.from, b.amount, b.key, accepted).1.Posted?)
              && (b !in w.burning ==> next == w)
  {
    match step
    case TransferStep(kind, from, to, amount, key, accepted) =>
      TransferRecordsExactly(w.db, kind, from, to, amount, key, accepted);
    case FundStep(p, cents, accepted) => MintWritesExactly(w.db, Purchase, p, FundedAmount(cents), accepted, p);
    case RewardStep(p, amount, accepted) => MintWritesExactly(w.db, RelayReward, p, amount, accepted, p);
    case MintStep(p, amount, accepted) => MintWritesExactly(w.db, Mint, p, amount, accepted, p);
    case BurnCommitStep(b, accepted) => BurnWritesExactly(w.db, b.from, b.amount, b.key, accepted, b.from);
    case _ =>
  }

  /** A burn goes ahead exactly on a balance that covers it at its read; the whole balance may be burned. */
  lemma {:induction false} BurnReadExactly(w: World, b: BurnRequest)
    ensures Next(w, BurnReadStep(b)).db == w.db
    ensures Next(w, BurnReadStep(b)).burning ==
              if 0 < b.amount <= RowOf(w.db, b.from).balance then w.burning + multiset{b} else w.burning
  {
  }

  // ── An idempotency key posts once ──────────────────────────────────────────

  predicate Used(events: seq<Event>, key: string) {
    exists i :: 0 <= i < |events| && events[i].key == Some(key)
  }

  predicate Carries(step: Step, key: string) {
    (step.TransferStep? && step.key == Some(key)) || (step.BurnCommitStep? && step.burn.key == Some(key))
  }

  /** Nothing was posted: log, supply and every row are as they were, or would have started. */
  ghost predicate NothingPosted(s: State, t: State) {
    t.events == s.events && t.supply == s.supply && forall p :: RowOf(t, p) == RowOf(s, p)
  }

  lemma {:induction false} UsedKeyPostsNothing(w: World, step: Step, key: string)
    requires Used(w.db.events, key) && Carries(step, key)
    ensures NothingPosted(w.db, Next(w, step).db)
  {
    var i :| 0 <= i < |w.db.events| && w.db.events[i].key == Some(key);
    if step.TransferStep? {
      TransferRecordsExactly(w.db, step.kind, step.from, step.to, step.amount, step.key, step.accepted);
    }
  }

  lemma {:induction false} LogOnlyGrows(w: World, steps: seq<Step>)
    ensures w.db.events <= Run(w, steps).db.events
    decreases |steps|
  {
    if steps != [] {
      StepRecordsItsRequest(w, steps[0]);
      LogOnlyGrows(Next(w, steps[0]), steps[1..]);
    }
  }

  /** Along every run a key posts at most once: after a transfer or burn carrying it has
      posted, and whatever comes in between, no transfer or burn carrying it posts
      anything or moves a single unit.
   */
  lemma {:induction false} KeyPostsOnce(w: World, first: Step, between: seq<Step>, again: Step, key: string)
    requires Carries(first, key) && Carries(again, key) && Next(w, first).db.events != w.db.events
    ensures var later := Run(Next(w, first), between);
            Used(later.db.events, key) && NothingPosted(later.db, Next(later, again).db)
  {
    var posted := Next(w, first);
    var later := Run(posted, between);
    StepRecordsItsRequest(w, first);
    LogOnlyGrows(posted, between);
    assert later.db.events[|w.db.events|] == posted.db.events[|w.db.events|];
    UsedKeyPostsNothing(later, again, key);
  }

  // ── Replay ─────────────────────────────────────────────────────────────────

  /** What one event does to the row of p. Payer, payee and treasury may coincide. */
  function Applied(a: Account, e: Event, p: Pial): Account {
    if e.kind.IsTransfer() then
      var sent := if e.from == Some(p) then SendBy(a, e.amount + e.fee) else a;
      var paid := if e.to == Some(p) then EarnBy(sent, e.amount) else sent;
      if e.fee > 0 && p == TREASURY then EarnBy(paid, e.fee) else paid
    else if e.kind.Burn? then
      if e.from == Some(p) then BurnBy(a, e.amount) else a
    else
      if e.to == Some(p) then MintBy(a, e.amount) else a
  }

  function Replay(events: seq<Event>, p: Pial): Account {
    if events == [] then EMPTY_ACCOUNT
    else Applied(Replay(events[..|events| - 1], p), events[|events| - 1], p)
  }

  lemma {:induction false} ReplayAppend(events: seq<Event>, e: Event, p: Pial)
    ensures Replay(events + [e], p) == Applied(Replay(events, p), e, p)
  {
  }

  /** The sequence numbers carried by the transfers p sent, in log order. */
  function SentNumbers(events: seq<Event>, p: Pial): seq<Option<nat>> {
    if events == [] then []
    else
      var last := events[|events| - 1];
      SentNumbers(events[..|events| - 1], p) + if last.kind.IsTransfer() && last.from == Some(p) then [last.seqFrom] else []
  }

  lemma {:induction false} SentNumbersAppend(events: seq<Event>, e: Event, p: Pial)
    ensures SentNumbers(events + [e], p)
         == SentNumbers(events, p) + if e.kind.IsTransfer() && e.from == Some(p) then [e.seqFrom] else []
  {
  }

  function CountingUp(n: nat): seq<Option<nat>> {
    if n == 0 then [] else CountingUp(n - 1) + [Some(n)]
  }

  function Balances(accounts: map<Pial, Account>): map<Pial, int> {
    map p | p in accounts :: accounts[p].balance
  }

  lemma {:induction false} BalanceUpdate(accounts: map<Pial, Account>, p: Pial, a: Account)
    ensures Total(Balances(accounts[p := a]))
         == Total(Balances(accounts)) + a.balance - if p in accounts then accounts[p].balance else 0
  {
    assert Balances(accounts[p := a]) == Balances(accounts)[p := a.balance];
    TotalUpdate(Balances(accounts), p, a.balance);
  }

  // ── Invariants ─────────────────────────────────────────────────────────────

  predicate RowAgrees(s: State, p: Pial) {
    && Replay(s.events, p) == (if p in s.accounts then s.accounts[p] else EMPTY_ACCOUNT)
    && SentNumbers(s.events, p) == CountingUp(Replay(s.events, p).seqNo)
  }

  predicate RowSound(a: Account) {
    0 <= a.balance == a.earned - a.spent
  }

  predicate KeysUnique(events: seq<Event>) {
    forall i, j :: 0 <= i < j < |events| && events[i].key.Some? ==> events[i].key != events[j].key
  }

  /** The rows are a replay of the log, whatever was requested. */
  ghost predicate Booked(s: State) {
    && TREASURY in s.accounts
    && (forall p :: RowAgrees(s, p))
    && (forall p :: p in s.accounts ==> RowSound(s.accounts[p]))
    && KeysUnique(s.events)
  }

  /** Every unit in circulation is in exactly one account. */
  ghost predicate Conserved(s: State) {
    && s.supply.circulating == s.supply.total == s.supply.minted - s.supply.burned
    && Total(Balances(s.accounts)) == s.supply.circulating
  }

  ghost predicate Inv(w: World) {
    && Booked(w.db)
    && forall b :: b in w.burning ==> b.from in w.db.accounts && b.amount > 0
  }

  /** The requests of the services carry i64 amounts. */
  predicate WellTyped(step: Step) {
    step.TransferStep? ==> step.amount <= I64_MAX
  }

  // ── One step keeps the books ───────────────────────────────────────────────

  lemma {:induction false} EnsuringKeepsBooks(s: State, p: Pial)
    requires Booked(s)
    ensures Booked(WithRow(s, p))
  {
    forall q
      ensures RowAgrees(WithRow(s, p), q)
    {
      assert RowAgrees(s, q);
    }
  }

  lemma {:induction false} EnsuringKeepsTotal(s: State, p: Pial)
    ensures Total(Balances(WithRow(s, p).accounts)) == Total(Balances(s.accounts))
  {
    if p !in s.accounts {
      BalanceUpdate(s.accounts, p, EMPTY_ACCOUNT);
    }
  }

  /** Appending an event and changing each row by what the event says keeps the books. */
  lemma {:induction false} PostingKeepsBooks(s: State, e: Event, t: State)
    requires Booked(s) && t.events == s.events + [e] && KeyFree(s.events, e.key)
    requires t.accounts.Keys == s.accounts.Keys
    requires forall p :: p in s.accounts ==> t.accounts[p] == Applied(s.accounts[p], e, p) && RowSound(t.accounts[p])
    requires forall p :: p !in s.accounts ==> Applied(EMPTY_ACCOUNT, e, p) == EMPTY_ACCOUNT
    requires e.kind.IsTransfer() ==>
               e.from.Some? && e.from.value in s.accounts && e.seqFrom == Some(s.accounts[e.from.value].seqNo + 1)
    ensures Booked(t)
  {
    forall p
      ensures RowAgrees(t, p)
    {
      assert RowAgrees(s, p);
      ReplayAppend(s.events, e, p);
      SentNumbersAppend(s.events, e, p);
    }
    forall i, j | 0 <= i < j < |t.events| && t.events[i].key.Some?
      ensures t.events[i].key != t.events[j].key
    {
      if j == |s.events| {
        assert s.events[i].key != e.key;
      }
    }
  }

  lemma {:induction false} SettlingFollowsTheEvent(accounts: map<Pial, Account>, e: Event, p: Pial)
    requires e.kind.IsTransfer() && e.from.Some? && e.to.Some? && e.from != e.to
    requires e.from.value in accounts && p in accounts
    ensures Settled(accounts, e.from.value, e.to.value, e.amount, e.fee).Keys == accounts.Keys
    ensures Settled(accounts, e.from.value, e.to.value, e.amount, e.fee)[p] == Applied(accounts[p], e, p)
  {
  }

  /** No row goes negative: only the sender is debited, and it could pay amount and fee. */
  lemma {:induction false} AppliedIsSound(a: Account, e: Event, p: Pial)
    requires RowSound(a) && e.kind.IsTransfer() && e.amount > 0
    requires e.from == Some(p) ==> a.balance >= e.amount + e.fee
    ensures RowSound(Applied(a, e, p))
  {
  }

  lemma {:induction false} TransferTxKeepsBooks(s: State, kind: Kind, from: Pial, to: Pial, amount: int,
      key: Option<string>, accepted: bool)
    requires Booked(s) && kind.IsTransfer() && 0 < amount && from != to
    requires from in s.accounts && to in s.accounts
    ensures Booked(TransferTx(s, kind, from, to, amount, key, accepted).0)
  {
    var (t, outcome) := TransferTx(s, kind, from, to, amount, key, accepted);
    if outcome.Posted? {
      var e := outcome.event;
      forall p | p in s.accounts
        ensures t.accounts.Keys == s.accounts.Keys
        ensures t.accounts[p] == Applied(s.accounts[p], e, p) && RowSound(t.accounts[p])
      {
        SettlingFollowsTheEvent(s.accounts, e, p);
        AppliedIsSound(s.accounts[p], e, p);
      }
      assert from in t.accounts;
      PostingKeepsBooks(s, e, t);
    }
  }

  lemma {:induction false} BothRowsReady(s: State, from: Pial, to: Pial) returns (ready: State)
    requires Booked(s)
    ensures ready == WithRow(WithRow(s, from), to)
    ensures Booked(ready) && from in ready.accounts && to in ready.accounts
  {
    EnsuringKeepsBooks(s, from);
    ready := WithRow(s, from);
    EnsuringKeepsBooks(ready, to);
    ready := WithRow(ready, to);
  }

  lemma {:induction false} TransferKeepsBooks(s: State, kind: Kind, from: Pial, to: Pial, amount: int,
      key: Option<string>, accepted: bool)
    requires Booked(s)
    ensures Booked(TransferResult(s, kind, from, to, amount, key, accepted).0)
  {
    if kind.IsTransfer() && amount > 0 && from != to {
      var ready := BothRowsReady(s, from, to);
      TransferTxKeepsBooks(ready, kind, from, to, amount, key, accepted);
    }
  }

  lemma {:induction false} MintTxKeepsBooks(s: State, kind: Kind, to: Pial, amount: int, accepted: bool)
    requires Booked(s) && !kind.IsTransfer() && !kind.Burn? && to in s.accounts
    ensures Booked(MintTx(s, kind, to, amount, accepted).0)
  {
    var (t, outcome) := MintTx(s, kind, to, amount, accepted);
    if outcome.Posted? {
      PostingKeepsBooks(s, outcome.event, t);
    }
  }

  lemma {:induction false} MintKeepsBooks(s: State, kind: Kind, to: Pial, amount: int, accepted: bool)
    requires Booked(s) && !kind.IsTransfer() && !kind.Burn?
    ensures Booked(MintResult(s, kind, to, amount, accepted).0)
  {
    EnsuringKeepsBooks(s, to);
    MintTxKeepsBooks(WithRow(s, to), kind, to, amount, accepted);
  }

  lemma {:induction false} BurnKeepsBooks(s: State, from: Pial, amount: int, key: Option<string>, accepted: bool)
    requires Booked(s) && from in s.accounts
    ensures Booked(BurnResult(s, from, amount, key, accepted).0)
  {
    var (t, outcome) := BurnResult(s, from, amount, key, accepted);
    if outcome.Posted? {
      PostingKeepsBooks(s, outcome.event, t);
    }
  }

  lemma {:induction false} StepKeepsRows(w: World, step: Step)
    ensures w.db.accounts.Keys <= Next(w, step).db.accounts.Keys
  {
  }

  lemma {:induction false} StepKeepsBooks(w: World, step: Step)
    requires Inv(w)
    ensures Booked(Next(w, step).db)
  {
    match step
    case EnsureStep(p) => EnsuringKeepsBooks(w.db, p);
    case TransferStep(kind, from, to, amount, key, accepted) =>
      TransferKeepsBooks(w.db, kind, from, to, amount, key, accepted);
    case FundStep(p, cents, accepted) => MintKeepsBooks(w.db, Purchase, p, FundedAmount(cents), accepted);
    case RewardStep(p, amount, accepted) => MintKeepsBooks(w.db, RelayReward, p, amount, accepted);
    case MintStep(p, amount, accepted) => MintKeepsBooks(w.db, Mint, p, amount, accepted);
    case BurnReadStep(b) =>
    case BurnCommitStep(b, accepted) =>
      if b in w.burning {
        BurnKeepsBooks(w.db, b.from, b.amount, b.key, accepted);
      }
  }

  lemma {:induction false} StepKeepsInv(w: World, step: Step)
    requires Inv(w)
    ensures Inv(Next(w, step))
  {
    StepKeepsRows(w, step);
    StepKeepsBooks(w, step);
    var next := Next(w, step);
    forall b | b in next.burning
      ensures b.from in next.db.accounts && b.amount > 0
    {
      assert b in w.burning || step == BurnReadStep(b);
    }
  }

  lemma {:induction false} GenesisIsSound()
    ensures Inv(World(GENESIS, multiset{})) && Conserved(GENESIS)
  {
  }

  /** In every reachable state every row is the replay of the log, balance is
      earned minus spent and not negative, no idempotency key was used twice,
      and each sender's transfers are numbered 1, 2, 3, … in log order. */
  lemma {:induction false} RunKeepsBooks(w: World, steps: seq<Step>)
    requires Inv(w)
    ensures Inv(Run(w, steps))
    decreases |steps|
  {
    if steps != [] {
      StepKeepsInv(w, steps[0]);
      RunKeepsBooks(Next(w, steps[0]), steps[1..]);
    }
  }

  // ── Conservation ───────────────────────────────────────────────────────────

  /** A transfer whose fee comes out negative, its product having left the i64 range,
      and that nothing stops from posting.
   */
  predicate Distorts(s: State, step: Step) {
    && step.TransferStep? && step.kind.IsTransfer()
    && step.amount > 0 && step.from != step.to && step.accepted && KeyFree(s.events, step.key)
    && FeeFor(step.amount, step.kind.FeeRate()) < 0
    && BalanceOf(s, step.from) >= step.amount + FeeFor(step.amount, step.kind.FeeRate())
  }

  lemma {:induction false} BalanceWithinTotal(s: State, p: Pial)
    requires Booked(s) && p in s.accounts
    ensures 0 <= s.accounts[p].balance <= Total(Balances(s.accounts))
  {
    var balances := Balances(s.accounts);
    forall q | q in balances
      ensures balances[q] >= 0
    {
      assert RowSound(s.accounts[q]);
    }
    TotalBounds(balances);
    assert p in balances && balances[p] == s.accounts[p].balance;
  }

  lemma {:induction false} CreditMovesTotal(accounts: map<Pial, Account>, p: Pial, x: int)
    requires p in accounts
    ensures Total(Balances(Credited(accounts, p, x))) == Total(Balances(accounts)) + x
  {
    BalanceUpdate(accounts, p, EarnBy(accounts[p], x));
  }

  lemma {:induction false} SettlingMovesTotal(accounts: map<Pial, Account>, from: Pial, to: Pial, amount: int, fee: int)
    requires from in accounts && to in accounts && TREASURY in accounts
    ensures Total(Balances(Settled(accounts, from, to, amount, fee))) == Total(Balances(accounts)) + Max(0, -fee)
  {
    var debited := accounts[from := SendBy(accounts[from], amount + fee)];
    BalanceUpdate(accounts, from, SendBy(accounts[from], amount + fee));
    CreditMovesTotal(debited, to, amount);
    CreditMovesTotal(Credited(debited, to, amount), TREASURY, fee);
  }

  /** A posted transfer leaves the sum of balances alone, unless its fee was
      negative, and then that much appears from nowhere. */
  lemma {:induction false} TransferMovesTotal(s: State, kind: Kind, from: Pial, to: Pial, amount: int,
      key: Option<string>, accepted: bool)
    requires TREASURY in s.accounts
    ensures var (t, outcome) := TransferResult(s, kind, from, to, amount, key, accepted);
            t.supply == s.supply &&
            Total(Balances(t.accounts)) == Total(Balances(s.accounts))
              + if outcome.Posted? then Max(0, -outcome.event.fee) else 0
  {
    if kind.IsTransfer() && amount > 0 && from != to {
      EnsuringKeepsTotal(s, from);
      EnsuringKeepsTotal(WithRow(s, from), to);
      var ready := WithRow(WithRow(s, from), to);
      SettlingMovesTotal(ready.accounts, from, to, amount, FeeFor(amount, kind.FeeRate()));
    }
  }

  lemma {:induction false} MintConserves(s: State, kind: Kind, to: Pial, amount: int, accepted: bool)
    requires Conserved(s)
    ensures Conserved(MintResult(s, kind, to, amount, accepted).0)
  {
    var ready := WithRow(s, to);
    EnsuringKeepsTotal(s, to);
    BalanceUpdate(ready.accounts, to, MintBy(ready.accounts[to], amount));
  }

  /** A burn whose balance was read long ago still conserves, and the GREATEST(0, …) clamps do nothing. */
  lemma {:induction false} BurnConserves(s: State, from: Pial, amount: int, key: Option<string>, accepted: bool)
    requires Booked(s) && Conserved(s) && from in s.accounts
    ensures var (t, outcome) := BurnResult(s, from, amount, key, accepted);
            Conserved(t) &&
            (outcome.Posted? ==> s.supply.total - amount >= 0 && s.supply.circulating - amount >= 0
                                 && t.supply.circulating == s.supply.circulating - amount)
  {
    if BurnResult(s, from, amount, key, accepted).1.Posted? {
      BalanceWithinTotal(s, from);
      BalanceUpdate(s.accounts, from, BurnBy(s.accounts[from], amount));
    }
  }

  /** Exactly when a step conserves: always, except for a transfer with a negative fee that its guards let through. */
  lemma {:induction false} StepConservesIff(w: World, step: Step)
    requires Inv(w) && Conserved(w.db)
    ensures Conserved(Next(w, step).db) <==> !Distorts(w.db, step)
  {
    match step
    case EnsureStep(p) => EnsuringKeepsTotal(w.db, p);
    case TransferStep(kind, from, to, amount, key, accepted) =>
      TransferMovesTotal(w.db, kind, from, to, amount, key, accepted);
      TransferMovesExactly(w.db, kind, from, to, amount, key, accepted, from);
    case FundStep(p, cents, accepted) => MintConserves(w.db, Purchase, p, FundedAmount(cents), accepted);
    case RewardStep(p, amount, accepted) => MintConserves(w.db, RelayReward, p, amount, accepted);
    case MintStep(p, amount, accepted) => MintConserves(w.db, Mint, p, amount, accepted);
    case BurnReadStep(b) =>
    case BurnCommitStep(b, accepted) =>
      if b in w.burning {
        BurnConserves(w.db, b.from, b.amount, b.key, accepted);
      }
  }

  /** The supply below which no account can pay for an amount whose fee product wraps. */
  const SAFE_SUPPLY: int := EXACT_UP_TO - 922_337_203_685_477

  lemma {:induction false} NoDistortionBelowSafeSupply(w: World, step: Step)
    requires Inv(w) && WellTyped(step) && Conserved(w.db) && w.db.supply.total <= SAFE_SUPPLY
    ensures !Distorts(w.db, step)
  {
    if Distorts(w.db, step) {
      var rate := step.kind.FeeRate();
      FeeIsExactIff(step.amount, rate);
      FeeNeverOverflowsTheSum(step.amount, rate);
      if step.from in w.db.accounts {
        BalanceWithinTotal(w.db, step.from);
      } else {
        BalanceWithinTotal(w.db, TREASURY);
      }
    }
  }

  /** No amount up to (2^63 - 1) / 300 distorts either, at any supply. */
  lemma {:induction false} NoDistortionForExactAmounts(s: State, step: Step)
    requires step.TransferStep? ==> step.amount <= EXACT_UP_TO
    ensures !Distorts(s, step)
  {
  }

  /** Conservation over a run whose transfers are exact or whose supply stays safe. */
  ghost predicate Safe(w: World, steps: seq<Step>)
    decreases |steps|
  {
    steps == [] ||
    (&& WellTyped(steps[0])
     && (w.db.supply.total <= SAFE_SUPPLY || (steps[0].TransferStep? ==> steps[0].amount <= EXACT_UP_TO))
     && Safe(Next(w, steps[0]), steps[1..]))
  }

  lemma {:induction false} RunConserves(w: World, steps: seq<Step>)
    requires Inv(w) && Conserved(w.db) && Safe(w, steps)
    ensures Inv(Run(w, steps)) && Conserved(Run(w, steps).db)
    decreases |steps|
  {
    if steps != [] {
      if w.db.supply.total <= SAFE_SUPPLY {
        NoDistortionBelowSafeSupply(w, steps[0]);
      } else {
        NoDistortionForExactAmounts(w.db, steps[0]);
      }
      StepKeepsInv(w, steps[0]);
      StepConservesIff(w, steps[0]);
      RunConserves(Next(w, steps[0]), steps[1..]);
    }
  }

  lemma {:induction false} WrappedTransferPosts(s: State, from: Pial, to: Pial)
    requires from in s.accounts && s.accounts[from].balance == 40_000_000_000_000_000 && from != to
    ensures Distorts(s, TransferStep(Transfer, from, to, 40_000_000_000_000_000, None, true))
  {
  }

  /** Outside that range conservation does fail: forty billion AET minted to one
      account and then transferred leaves more in the accounts than in the supply. */
  lemma {:induction false} ConservationCanFail(from: Pial, to: Pial)
    requires from != to && from != TREASURY
    ensures var minted := Next(World(GENESIS, multiset{}), MintStep(from, 40_000_000_000_000_000, true));
            !Conserved(Next(minted, TransferStep(Transfer, from, to, 40_000_000_000_000_000, None, true)).db)
  {
    var start := World(GENESIS, multiset{});
    var mint := MintStep(from, 40_000_000_000_000_000, true);
    GenesisIsSound();
    StepKeepsInv(start, mint);
    StepConservesIff(start, mint);
    var minted := Next(start, mint);
    WrappedTransferPosts(minted.db, from, to);
    StepConservesIff(minted, TransferStep(Transfer, from, to, 40_000_000_000_000_000, None, true));
  }

  /** A fee short by the wrapped product leaves too much credit, and a hundred times
      the surplus is no multiple of 2^64.
   */
  lemma {:induction false} WrappedFundingIsWrong(cents: int)
    requires 0 < cents <= I64_MAX && cents * LEDGER_DEPOSIT > I64_MAX
    ensures FundedAmount(cents) != 100 * (cents - cents * LEDGER_DEPOSIT / 10_000)
  {
    var right := 100 * (cents - cents * LEDGER_DEPOSIT / 10_000);
    if right <= I64_MAX {
      var product := cents * LEDGER_DEPOSIT;
      assert I64_MAX < product < TWO_64 + I64_MAX;
      assert Wrap64(product) == product - TWO_64;
      var credit := cents - FeeFor(cents, LEDGER_DEPOSIT);
      assert 184_467_440_737_095_000 < 100 * credit - right < 184_467_440_737_096_000;
    }
  }

  /** fund_wallet mints the net credit at a hundred micro-AET each exactly while the fee's product fits. */
  lemma {:induction false} FundedAmountIsExact(cents: int)
    requires 0 < cents <= I64_MAX
    ensures FundedAmount(cents) == 100 * (cents - cents * 250 / 10_000) <==> cents * 250 <= I64_MAX
    ensures cents * 250 <= I64_MAX ==> FundedAmount(cents) > 0
    ensures -I64_MAX - 1 <= FundedAmount(cents) <= I64_MAX
  {
    if cents * LEDGER_DEPOSIT <= I64_MAX {
      FeeIsExactIff(cents, LEDGER_DEPOSIT);
      NetIsPositive(cents, LEDGER_DEPOSIT);
    } else {
      WrappedFundingIsWrong(cents);
    }
  }
}
