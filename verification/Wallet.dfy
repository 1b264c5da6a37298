/** Ain Soph's wallet: idempotent double-entry transactions.

    Each request is one database transaction that replays an earlier commit of
    its key, fails and rolls back, or posts one transaction row, the balances and
    the ledger entries together. The fee account is an ordinary account and may
    itself be payer or payee.
 */
module Wallet {
  import opened Sums
  import opened Fees

  type Account = string

  const FEE_ACCOUNT: Account := "ain_soph_fees"

  datatype Kind = Deposit | Transfer | Tip | Withdrawal {
    function FeeRate(): int {
      match this
      case Deposit => WALLET_DEPOSIT
      case Transfer => WALLET_TRANSFER
      case Tip => WALLET_TIP
      case Withdrawal => WALLET_WITHDRAWAL
    }
  }

  /** A transactions row. Payer and payee are its from_user_id and to_user_id. */
  datatype TxRow = TxRow(id: string, key: string, kind: Kind, payer: Option<Account>, payee: Option<Account>,
                         amount: int, fee: int, net: int)

  datatype Side = Debit | Credit

  /** A ledger_entries row. */
  datatype Entry = Entry(txId: string, account: Account, side: Side, amount: int)

  datatype State = State(accounts: map<Account, int>, txs: seq<TxRow>, entries: seq<Entry>)

  const EMPTY: State := State(map[], [], [])

  datatype Failure = InvalidAmount | SelfTransfer | InsufficientBalance | Database

  datatype Response =
    | Done(id: string, kind: Kind, amount: int, fee: int, net: int, replayed: bool)
    | Failed(why: Failure)

  /** A request after its parties were resolved to identities. `txId` is the UUID drawn for this attempt;
      `accepted` says whether the database accepts the transaction beyond the constraints written out here. */
  datatype Request =
    | DepositRequest(user: Account, cents: int, key: string, txId: string, accepted: bool)
    | TransferRequest(from: Account, to: Account, cents: int, key: string, txId: string, accepted: bool)
    | TipRequest(from: Account, to: Account, aet: real, key: string, txId: string, accepted: bool)
    | WithdrawRequest(user: Account, cents: int, key: string, txId: string, accepted: bool)

  // ── Rows ───────────────────────────────────────────────────────────────────

  function RowFor(id: string, key: string, kind: Kind, payer: Option<Account>, payee: Option<Account>, amount: int): TxRow {
    var fee := FeeFor(amount, kind.FeeRate());
    TxRow(id, key, kind, payer, payee, amount, fee, amount - fee)
  }

  /** Whole AET to hundredths, rounded half up; the cast saturates. */
  function TipUnits(aet: real): int {
    var units := (aet * 100.0 + 0.5).Floor;
    if units > I64_MAX then I64_MAX else units
  }

  /** A tip sent without a key is keyed by its own transaction id. */
  function EffectiveKey(r: Request): string {
    if r.TipRequest? && r.key == "" then r.txId else r.key
  }

  function FirstWithKey(txs: seq<TxRow>, key: string): Option<TxRow> {
    if txs == [] then None
    else
      var earlier := FirstWithKey(txs[..|txs| - 1], key);
      if earlier.Some? then earlier
      else if txs[|txs| - 1].key == key then Some(txs[|txs| - 1])
      else None
  }

  predicate IdUsed(txs: seq<TxRow>, id: string) {
    exists i :: 0 <= i < |txs| && txs[i].id == id
  }

  /** existing_tx: what a replay answers. */
  function Replayed(row: TxRow): Response {
    Done(row.id, row.kind, row.amount, row.fee, row.net, true)
  }

  // ── Statements ─────────────────────────────────────────────────────────────

  function Ensured(accounts: map<Account, int>, a: Option<Account>): map<Account, int> {
    if a.None? || a.value in accounts then accounts else accounts[a.value := 0]
  }

  function Moved(accounts: map<Account, int>, a: Option<Account>, x: int): map<Account, int> {
    if a.None? || a.value !in accounts then accounts else accounts[a.value := accounts[a.value] + x]
  }

  function AllEnsured(accounts: map<Account, int>, row: TxRow): map<Account, int> {
    Ensured(Ensured(Ensured(accounts, row.payer), row.payee), Some(FEE_ACCOUNT))
  }

  /** Debit the payer, credit the payee the net, credit the fee account. */
  function Settled(accounts: map<Account, int>, row: TxRow): map<Account, int> {
    Moved(Moved(Moved(AllEnsured(accounts, row), row.payer, -row.amount), row.payee, row.net), Some(FEE_ACCOUNT), row.fee)
  }

  /** The entries appended for a row: no entry for a zero fee. */
  function Postings(row: TxRow): seq<Entry> {
    (if row.payer.Some? then [Entry(row.id, row.payer.value, Debit, row.amount)] else [])
    + (if row.payee.Some? then [Entry(row.id, row.payee.value, Credit, row.net)] else [])
    + (if row.fee > 0 then [Entry(row.id, FEE_ACCOUNT, Credit, row.fee)] else [])
  }

  function BalanceOf(accounts: map<Account, int>, a: Account): int {
    if a in accounts then accounts[a] else 0
  }

  /** The CHECK constraints on a transactions row. */
  predicate RowAllowed(row: TxRow) {
    row.amount > 0 && row.fee >= 0 && row.net >= 0
  }

  /** The CHECK constraint on each entry the row would append. */
  predicate EntriesAllowed(row: TxRow) {
    forall i :: 0 <= i < |Postings(row)| ==> Postings(row)[i].amount > 0
  }

  /** One money transaction, from its INSERT … ON CONFLICT (idempotency_key) DO NOTHING to its commit. */
  function Transact(s: State, row: TxRow, accepted: bool): (State, Response) {
    if !RowAllowed(row) then (s, Failed(Database))
    else if FirstWithKey(s.txs, row.key).Some? then (s, Replayed(FirstWithKey(s.txs, row.key).value))
    else if IdUsed(s.txs, row.id) then (s, Failed(Database))
    else if row.payer.Some? && BalanceOf(s.accounts, row.payer.value) < row.amount then (s, Failed(InsufficientBalance))
    else if !EntriesAllowed(row) || !accepted then (s, Failed(Database))
    else
      (State(Settled(s.accounts, row), s.txs + [row], s.entries + Postings(row)),
       Done(row.id, row.kind, row.amount, row.fee, row.net, false))
  }

  /** The checks a handler makes before it opens a transaction. */
  function Rejected(r: Request): Option<Failure> {
    match r
    case DepositRequest(_, cents, _, _, _) => if cents <= 0 then Some(InvalidAmount) else None
    case WithdrawRequest(_, cents, _, _, _) => if cents <= 0 then Some(InvalidAmount) else None
    case TransferRequest(from, to, cents, _, _, _) =>
      if cents <= 0 then Some(InvalidAmount) else if from == to then Some(SelfTransfer) else None
    case TipRequest(from, to, aet, _, _, _) =>
      if aet <= 0.0 then Some(InvalidAmount)
      else if from == to then Some(SelfTransfer)
      else if TipUnits(aet) <= 0 then Some(InvalidAmount)
      else None
  }

  function RequestedRow(r: Request): TxRow {
    match r
    case DepositRequest(user, cents, key, id, _) => RowFor(id, key, Deposit, None, Some(user), cents)
    case TransferRequest(from, to, cents, key, id, _) => RowFor(id, key, Transfer, Some(from), Some(to), cents)
    case TipRequest(from, to, aet, _, id, _) => RowFor(id, EffectiveKey(r), Tip, Some(from), Some(to), TipUnits(aet))
    case WithdrawRequest(user, cents, key, id, _) => RowFor(id, key, Withdrawal, Some(user), None, cents)
  }

  function Apply(s: State, r: Request): (State, Response) {
    if Rejected(r).Some? then (s, Failed(Rejected(r).value)) else Transact(s, RequestedRow(r), r.accepted)
  }

  function Run(s: State, requests: seq<Request>): State
    decreases |requests|
  {
    if requests == [] then s else Run(Apply(s, requests[0]).0, requests[1..])
  }

  // ── Books ──────────────────────────────────────────────────────────────────

  function Signed(e: Entry): int {
    if e.side.Credit? then e.amount else -e.amount
  }

  /** Credits minus debits of one account. */
  function EntrySum(entries: seq<Entry>, a: Account): int {
    if entries == [] then 0
    else
      var last := entries[|entries| - 1];
      EntrySum(entries[..|entries| - 1], a) + if last.account == a then Signed(last) else 0
  }

  function AllPostings(txs: seq<TxRow>): seq<Entry> {
    if txs == [] then [] else AllPostings(txs[..|txs| - 1]) + Postings(txs[|txs| - 1])
  }

  /** What a transaction brings into the wallet from outside: a deposit's gross in, a withdrawal's net out. */
  function Inflow(row: TxRow): int {
    match row.kind
    case Deposit => row.amount
    case Withdrawal => -row.net
    case _ => 0
  }

  function TotalInflow(txs: seq<TxRow>): int {
    if txs == [] then 0 else TotalInflow(txs[..|txs| - 1]) + Inflow(txs[|txs| - 1])
  }

  predicate RowSound(row: TxRow) {
    && 0 <= row.fee < row.amount && row.net == row.amount - row.fee
    && row.fee == FeeFor(row.amount, row.kind.FeeRate())
    && (row.payer.None? <==> row.kind.Deposit?) && (row.payee.None? <==> row.kind.Withdrawal?)
  }

  predicate Unique(txs: seq<TxRow>) {
    forall i, j :: 0 <= i < j < |txs| ==> txs[i].key != txs[j].key && txs[i].id != txs[j].id
  }

  predicate RowsSound(txs: seq<TxRow>) {
    forall i :: 0 <= i < |txs| ==> RowSound(txs[i])
  }

  ghost predicate BalancesMatch(s: State) {
    forall a :: EntrySum(s.entries, a) == BalanceOf(s.accounts, a)
  }

  predicate NonNegative(accounts: map<Account, int>) {
    forall a :: a in accounts ==> accounts[a] >= 0
  }

  ghost predicate Inv(s: State) {
    && BalancesMatch(s)
    && NonNegative(s.accounts)
    && s.entries == AllPostings(s.txs)
    && Total(s.accounts) == TotalInflow(s.txs)
    && RowsSound(s.txs) && Unique(s.txs)
  }

  // ── Posting a row ──────────────────────────────────────────────────────────

  lemma {:induction false} EntrySumAppend(entries: seq<Entry>, e: Entry, a: Account)
    ensures EntrySum(entries + [e], a) == EntrySum(entries, a) + if e.account == a then Signed(e) else 0
  {
  }

  lemma {:induction false} EntrySumConcat(xs: seq<Entry>, ys: seq<Entry>, a: Account)
    ensures EntrySum(xs + ys, a) == EntrySum(xs, a) + EntrySum(ys, a)
    decreases |ys|
  {
    if ys == [] {
      assert xs + ys == xs;
    } else {
      var front, last := ys[..|ys| - 1], ys[|ys| - 1];
      EntrySumConcat(xs, front, a);
      EntrySumAppend(xs + front, last, a);
      EntrySumAppend(front, last, a);
      assert xs + ys == xs + front + [last] && ys == front + [last];
    }
  }

  /** What a row does to one account, whichever of its three roles the account plays. */
  function Effect(row: TxRow, a: Account): int {
    (if row.payee == Some(a) then row.net else 0) + (if a == FEE_ACCOUNT then row.fee else 0)
    - (if row.payer == Some(a) then row.amount else 0)
  }

  lemma {:induction false} PostingsSum(row: TxRow, a: Account)
    requires row.fee >= 0
    ensures EntrySum(Postings(row), a) == Effect(row, a)
  {
    var debit := if row.payer.Some? then [Entry(row.id, row.payer.value, Debit, row.amount)] else [];
    var credit := if row.payee.Some? then [Entry(row.id, row.payee.value, Credit, row.net)] else [];
    var fee := if row.fee > 0 then [Entry(row.id, FEE_ACCOUNT, Credit, row.fee)] else [];
    EntrySumConcat(debit + credit, fee, a);
    EntrySumConcat(debit, credit, a);
  }

  lemma {:induction false} SettledBalance(accounts: map<Account, int>, row: TxRow, a: Account)
    ensures BalanceOf(Settled(accounts, row), a) == BalanceOf(accounts, a) + Effect(row, a)
  {
  }

  lemma {:induction false} EnsuringKeepsTotal(accounts: map<Account, int>, a: Option<Account>)
    ensures Total(Ensured(accounts, a)) == Total(accounts)
  {
    if a.Some? {
      TotalUpdate(accounts, a.value, 0);
    }
  }

  lemma {:induction false} MovingAddsToTotal(accounts: map<Account, int>, a: Option<Account>, x: int)
    requires a.Some? ==> a.value in accounts
    ensures Total(Moved(accounts, a, x)) == Total(accounts) + if a.Some? then x else 0
  {
    if a.Some? {
      TotalUpdate(accounts, a.value, accounts[a.value] + x);
    }
  }

  lemma {:induction false} EnsuringAllKeepsTotal(accounts: map<Account, int>, row: TxRow)
    ensures Total(AllEnsured(accounts, row)) == Total(accounts)
    ensures FEE_ACCOUNT in AllEnsured(accounts, row)
    ensures row.payer.Some? ==> row.payer.value in AllEnsured(accounts, row)
    ensures row.payee.Some? ==> row.payee.value in AllEnsured(accounts, row)
  {
    EnsuringKeepsTotal(accounts, row.payer);
    var one := Ensured(accounts, row.payer);
    EnsuringKeepsTotal(one, row.payee);
    EnsuringKeepsTotal(Ensured(one, row.payee), Some(FEE_ACCOUNT));
  }

  lemma {:induction false} SettlingAddsInflow(accounts: map<Account, int>, row: TxRow)
    requires RowSound(row)
    ensures Total(Settled(accounts, row)) == Total(accounts) + Inflow(row)
  {
    EnsuringAllKeepsTotal(accounts, row);
    var ready := AllEnsured(accounts, row);
    var debited := Moved(ready, row.payer, -row.amount);
    var paid := Moved(debited, row.payee, row.net);
    MovingAddsToTotal(ready, row.payer, -row.amount);
    MovingAddsToTotal(debited, row.payee, row.net);
    MovingAddsToTotal(paid, Some(FEE_ACCOUNT), row.fee);
  }

  lemma {:induction false} SettlingKeepsNonNegative(accounts: map<Account, int>, row: TxRow)
    requires NonNegative(accounts) && RowSound(row)
    requires row.payer.Some? ==> BalanceOf(accounts, row.payer.value) >= row.amount
    ensures NonNegative(Settled(accounts, row))
  {
  }

  /** No ledger-entry CHECK can fail once the row itself is allowed. */
  lemma {:induction false} EntryChecksNeverFail(row: TxRow)
    requires RowSound(row)
    ensures RowAllowed(row) && EntriesAllowed(row)
  {
  }

  /** The row a request asks for is sound or its INSERT is refused, whatever the amount. */
  lemma {:induction false} RequestedRowIsSound(r: Request)
    requires Rejected(r).None? && RequestedRow(r).amount <= I64_MAX
    ensures RowAllowed(RequestedRow(r)) ==> RowSound(RequestedRow(r))
    ensures RequestedRow(r).amount <= EXACT_UP_TO ==> RowAllowed(RequestedRow(r))
  {
    var row := RequestedRow(r);
    FeeNeverOverflowsTheSum(row.amount, row.kind.FeeRate());
    FeeIsExactIff(row.amount, row.kind.FeeRate());
  }

  lemma {:induction false} KeyFoundOrAbsent(txs: seq<TxRow>, key: string)
    ensures FirstWithKey(txs, key).Some? ==> exists i :: 0 <= i < |txs| && txs[i] == FirstWithKey(txs, key).value
    ensures FirstWithKey(txs, key).Some? ==> FirstWithKey(txs, key).value.key == key
    ensures FirstWithKey(txs, key).None? ==> forall i :: 0 <= i < |txs| ==> txs[i].key != key
    decreases |txs|
  {
    if txs != [] {
      KeyFoundOrAbsent(txs[..|txs| - 1], key);
    }
  }

  lemma {:induction false} CommitKeepsInv(s: State, row: TxRow)
    requires Inv(s) && RowSound(row) && FirstWithKey(s.txs, row.key).None? && !IdUsed(s.txs, row.id)
    requires row.payer.Some? ==> BalanceOf(s.accounts, row.payer.value) >= row.amount
    ensures Inv(State(Settled(s.accounts, row), s.txs + [row], s.entries + Postings(row)))
  {
    var t := State(Settled(s.accounts, row), s.txs + [row], s.entries + Postings(row));
    forall a
      ensures EntrySum(t.entries, a) == BalanceOf(t.accounts, a)
    {
      EntrySumConcat(s.entries, Postings(row), a);
      PostingsSum(row, a);
      SettledBalance(s.accounts, row, a);
    }
    SettlingKeepsNonNegative(s.accounts, row);
    SettlingAddsInflow(s.accounts, row);
    KeyFoundOrAbsent(s.txs, row.key);
    assert t.txs[..|s.txs|] == s.txs;
  }

  /** Requests carry i64 amounts. */
  predicate WellTyped(r: Request) {
    r.TipRequest? || r.cents <= I64_MAX
  }

  lemma {:induction false} ApplyKeepsInv(s: State, r: Request)
    requires Inv(s) && WellTyped(r)
    ensures Inv(Apply(s, r).0)
  {
    if Rejected(r).None? {
      var row := RequestedRow(r);
      RequestedRowIsSound(r);
      if Apply(s, r).0 != s {
        CommitKeepsInv(s, row);
      }
    }
  }

  lemma {:induction false} EmptyIsSound()
    ensures Inv(EMPTY)
  {
  }

  /** In every reachable state each balance is its credits minus its debits and
      not negative, the entries are exactly those of the committed transactions,
      keys and ids are unique, and the balances add up to gross deposits minus
      net withdrawals; also when the fee account pays, is paid, or both. */
  lemma {:induction false} RunKeepsInv(s: State, requests: seq<Request>)
    requires Inv(s) && forall i :: 0 <= i < |requests| ==> WellTyped(requests[i])
    ensures Inv(Run(s, requests))
    decreases |requests|
  {
    if requests != [] {
      ApplyKeepsInv(s, requests[0]);
      RunKeepsInv(Apply(s, requests[0]).0, requests[1..]);
    }
  }

  // ── Double entry ───────────────────────────────────────────────────────────

  /** Sum of one side of one transaction's entries. */
  function SideSum(entries: seq<Entry>, id: string, side: Side): int {
    if entries == [] then 0
    else
      var last := entries[|entries| - 1];
      SideSum(entries[..|entries| - 1], id, side) + if last.txId == id && last.side == side then last.amount else 0
  }

  lemma {:induction false} SideSumConcat(xs: seq<Entry>, ys: seq<Entry>, id: string, side: Side)
    ensures SideSum(xs + ys, id, side) == SideSum(xs, id, side) + SideSum(ys, id, side)
    decreases |ys|
  {
    if ys == [] {
      assert xs + ys == xs;
    } else {
      SideSumConcat(xs, ys[..|ys| - 1], id, side);
      assert (xs + ys)[..|xs + ys| - 1] == xs + ys[..|ys| - 1];
    }
  }

  function RowSide(row: TxRow, side: Side): int {
    if side.Debit? then (if row.payer.Some? then row.amount else 0)
    else (if row.payee.Some? then row.net else 0) + row.fee
  }

  lemma {:induction false} PostingsSides(row: TxRow, id: string, side: Side)
    requires row.fee >= 0
    ensures SideSum(Postings(row), id, side) == if row.id == id then RowSide(row, side) else 0
  {
    var debit := if row.payer.Some? then [Entry(row.id, row.payer.value, Debit, row.amount)] else [];
    var credit := if row.payee.Some? then [Entry(row.id, row.payee.value, Credit, row.net)] else [];
    var fee := if row.fee > 0 then [Entry(row.id, FEE_ACCOUNT, Credit, row.fee)] else [];
    SideSumConcat(debit + credit, fee, id, side);
    SideSumConcat(debit, credit, id, side);
  }

  lemma {:induction false} SidesOfMore(txs: seq<TxRow>, last: TxRow, id: string, side: Side)
    requires last.fee >= 0
    ensures SideSum(AllPostings(txs + [last]), id, side)
         == SideSum(AllPostings(txs), id, side) + if last.id == id then RowSide(last, side) else 0
  {
    assert (txs + [last])[..|txs|] == txs;
    SideSumConcat(AllPostings(txs), Postings(last), id, side);
    PostingsSides(last, id, side);
  }

  lemma {:induction false} SidesOfAbsent(txs: seq<TxRow>, id: string, side: Side)
    requires RowsSound(txs) && !IdUsed(txs, id)
    ensures SideSum(AllPostings(txs), id, side) == 0
    decreases |txs|
  {
    if txs != [] {
      var front, last := txs[..|txs| - 1], txs[|txs| - 1];
      assert txs == front + [last] && RowSound(last);
      SidesOfAbsent(front, id, side);
      SidesOfMore(front, last, id, side);
    }
  }

  lemma {:induction false} SidesOfRow(txs: seq<TxRow>, i: nat, side: Side)
    requires RowsSound(txs) && Unique(txs) && i < |txs|
    ensures SideSum(AllPostings(txs), txs[i].id, side) == RowSide(txs[i], side)
    decreases |txs|
  {
    var front, last := txs[..|txs| - 1], txs[|txs| - 1];
    assert txs == front + [last] && RowSound(last);
    SidesOfMore(front, last, txs[i].id, side);
    if i < |front| {
      SidesOfRow(front, i, side);
    } else {
      SidesOfAbsent(front, last.id, side);
    }
  }

  /** Every transfer and tip in the books has debits equal to credits; a deposit
      credits its gross; a withdrawal debits its amount and credits its fee. */
  lemma {:induction false} DebitsMatchCredits(s: State, i: nat)
    requires Inv(s) && i < |s.txs|
    ensures var row := s.txs[i];
            var debits, credits := SideSum(s.entries, row.id, Debit), SideSum(s.entries, row.id, Credit);
            match row.kind
            case Deposit => debits == 0 && credits == row.amount
            case Withdrawal => debits == row.amount && credits == row.fee
            case _ => debits == credits == row.amount
  {
    SidesOfRow(s.txs, i, Debit);
    SidesOfRow(s.txs, i, Credit);
    assert RowSound(s.txs[i]);
  }

  // ── Retries ────────────────────────────────────────────────────────────────

  /** The request's key has already committed. */
  predicate IsRetry(s: State, r: Request) {
    FirstWithKey(s.txs, EffectiveKey(r)).Some?
  }

  lemma {:induction false} RetryChangesNothing(s: State, r: Request)
    requires IsRetry(s, r)
    ensures Apply(s, r).0 == s
  {
  }

  /** The run with every request deleted whose key had committed by its turn. */
  function WithoutRetries(s: State, requests: seq<Request>): seq<Request>
    decreases |requests|
  {
    if requests == [] then []
    else
      var rest := WithoutRetries(Apply(s, requests[0]).0, requests[1..]);
      if IsRetry(s, requests[0]) then rest else [requests[0]] + rest
  }

  /** The answers given to the requests that were not retries. */
  function FirstAnswers(s: State, requests: seq<Request>): seq<Response>
    decreases |requests|
  {
    if requests == [] then []
    else
      var (next, answer) := Apply(s, requests[0]);
      (if IsRetry(s, requests[0]) then [] else [answer]) + FirstAnswers(next, requests[1..])
  }

  function Answers(s: State, requests: seq<Request>): seq<Response>
    decreases |requests|
  {
    if requests == [] then []
    else
      var (next, answer) := Apply(s, requests[0]);
      [answer] + Answers(next, requests[1..])
  }

  /** Retries anywhere in a run change neither the accounts, transactions and
      entries it ends in nor the answer to any other request. */
  lemma {:induction false} RetriesAreInvisible(s: State, requests: seq<Request>)
    ensures Run(s, WithoutRetries(s, requests)) == Run(s, requests)
    ensures Answers(s, WithoutRetries(s, requests)) == FirstAnswers(s, requests)
    decreases |requests|
  {
    if requests != [] {
      var r, rest := requests[0], requests[1..];
      var next := Apply(s, r).0;
      RetriesAreInvisible(next, rest);
      if IsRetry(s, r) {
        RetryChangesNothing(s, r);
      } else {
        var kept := WithoutRetries(s, requests);
        assert kept[0] == r && kept[1..] == WithoutRetries(next, rest);
      }
    }
  }

  lemma {:induction false} FirstStaysFirst(txs: seq<TxRow>, more: seq<TxRow>, key: string)
    requires FirstWithKey(txs, key).Some?
    ensures FirstWithKey(txs + more, key) == FirstWithKey(txs, key)
    decreases |more|
  {
    if more == [] {
      assert txs + more == txs;
    } else {
      FirstStaysFirst(txs, more[..|more| - 1], key);
      assert (txs + more)[..|txs + more| - 1] == txs + more[..|more| - 1];
    }
  }

  lemma {:induction false} CommittedKeyStays(s: State, requests: seq<Request>, key: string)
    requires FirstWithKey(s.txs, key).Some?
    ensures FirstWithKey(Run(s, requests).txs, key) == FirstWithKey(s.txs, key)
    decreases |requests|
  {
    if requests != [] {
      FirstStaysFirst(s.txs, [RequestedRow(requests[0])], key);
      CommittedKeyStays(Apply(s, requests[0]).0, requests[1..], key);
    }
  }

  /** The same body sent again under a new attempt id. */
  predicate SameBody(r: Request, again: Request) {
    match (r, again)
    case (DepositRequest(u, c, k, _, _), DepositRequest(v, d, l, _, _)) => u == v && c == d && k == l
    case (TransferRequest(f, t, c, k, _, _), TransferRequest(g, u, d, l, _, _)) => f == g && t == u && c == d && k == l
    case (TipRequest(f, t, x, k, _, _), TipRequest(g, u, y, l, _, _)) => f == g && t == u && x == y && k == l
    case (WithdrawRequest(u, c, k, _, _), WithdrawRequest(v, d, l, _, _)) => u == v && c == d && k == l
    case _ => false
  }

  /** Once a request has committed, repeating it, any time later and after any
      other requests, answers with the first transaction's id, amounts and fee
      and changes nothing. */
  lemma {:induction false} RepeatAnswersTheFirst(s: State, r: Request, others: seq<Request>, again: Request)
    requires Apply(s, r).1.Done? && !Apply(s, r).1.replayed
    requires SameBody(r, again) && (r.TipRequest? ==> r.key != "")
    ensures var later := Run(Apply(s, r).0, others);
            Apply(later, again) == (later, Apply(s, r).1.(replayed := true))
  {
    var row := RequestedRow(r);
    var next := Apply(s, r).0;
    assert next.txs[..|s.txs|] == s.txs;
    assert FirstWithKey(next.txs, row.key) == Some(row);
    CommittedKeyStays(next, others, row.key);
    assert Rejected(again).None? && RowAllowed(RequestedRow(again));
  }

  /** A refused request leaves no trace, so its key can still be used. */
  lemma {:induction false} RefusalLeavesNoTrace(s: State, r: Request)
    requires Apply(s, r).1.Failed?
    ensures Apply(s, r).0 == s
    ensures Apply(s, r).1.why == InsufficientBalance ==> !IsRetry(Apply(s, r).0, r)
  {
  }

  /** The key refused for want of money commits as soon as the payer can pay. */
  lemma {:induction false} RefusedKeyStaysUsable(s: State, r: Request, later: State)
    requires Inv(s) && Apply(s, r).1 == Failed(InsufficientBalance) && r.accepted && WellTyped(r)
    requires !IsRetry(later, r) && !IdUsed(later.txs, r.txId)
    requires BalanceOf(later.accounts, RequestedRow(r).payer.value) >= RequestedRow(r).amount
    ensures Apply(later, r).1.Done? && !Apply(later, r).1.replayed
  {
    RequestServedExactly(s, r);
    RequestServedExactly(later, r);
    FirstWithKeyExactly(later, EffectiveKey(r));
  }

  /** A run is its requests one after the other. */
  lemma {:induction false} RunOfMore(s: State, requests: seq<Request>, last: Request)
    ensures Run(s, []) == s && Run(s, requests + [last]) == Apply(Run(s, requests), last).0
    decreases |requests|
  {
    if requests == [] {
      assert [last][1..] == [] && [] + [last] == [last];
    } else {
      RunOfMore(Apply(s, requests[0]).0, requests[1..], last);
      assert (requests + [last])[1..] == requests[1..] + [last];
    }
  }

  // ── Exactly what each request does ─────────────────────────────────────────

  predicate Committed(answer: Response) {
    answer.Done? && !answer.replayed
  }

  predicate KeyUsed(s: State, key: string) {
    exists i :: 0 <= i < |s.txs| && s.txs[i].key == key
  }

  /** The row at i, the first with the key, is what a repeat is answered with. */
  predicate FirstUse(s: State, key: string, i: nat) {
    i < |s.txs| && s.txs[i].key == key && forall j :: 0 <= j < i ==> s.txs[j].key != key
  }

  lemma {:induction false} FirstWithKeyExactly(s: State, key: string)
    ensures FirstWithKey(s.txs, key).Some? <==> KeyUsed(s, key)
    ensures forall i: nat :: FirstUse(s, key, i) ==> FirstWithKey(s.txs, key) == Some(s.txs[i])
    decreases |s.txs|
  {
    KeyFoundOrAbsent(s.txs, key);
    if s.txs != [] {
      var front := s.(txs := s.txs[..|s.txs| - 1]);
      FirstWithKeyExactly(front, key);
      forall i: nat | FirstUse(s, key, i)
        ensures FirstWithKey(s.txs, key) == Some(s.txs[i])
      {
        if i < |front.txs| {
          assert FirstUse(front, key, i);
        } else {
          KeyFoundOrAbsent(front.txs, key);
        }
      }
    }
  }

  /** Hundredths of an AET are rounded to the nearest, a half upwards, and saturate. */
  lemma {:induction false} TipUnitsRound(aet: real)
    requires aet > 0.0
    ensures 0 <= TipUnits(aet) <= 0x7FFF_FFFF_FFFF_FFFF
    ensures TipUnits(aet) < 0x7FFF_FFFF_FFFF_FFFF ==>
              TipUnits(aet) as real - 0.5 <= aet * 100.0 < TipUnits(aet) as real + 0.5
    ensures TipUnits(aet) == 0x7FFF_FFFF_FFFF_FFFF ==> aet * 100.0 >= TipUnits(aet) as real - 0.5
  {
  }

  /** The answer to a request whose amount and parties are in order: replayed when its key
      has committed, refused when its fee wrapped below zero, its id is taken, its payer
      cannot pay or the database does not accept it, and otherwise committed.
   */
  predicate AnsweredAs(s: State, r: Request, answer: Response, payer: Option<Account>, amount: int, fee: int, key: string) {
    var unused := fee >= 0 && !KeyUsed(s, key) && forall i :: 0 <= i < |s.txs| ==> s.txs[i].id != r.txId;
    var funded := payer.Some? ==> BalanceOf(s.accounts, payer.value) >= amount;
    && (Committed(answer) <==> unused && funded && r.accepted)
    && (answer == Failed(InsufficientBalance) <==> unused && !funded)
    && (answer.Done? && answer.replayed <==> fee >= 0 && KeyUsed(s, key))
    && (answer.Failed? ==> answer.why in {InsufficientBalance, Database})
    && (forall i :: 0 <= i < |s.txs| && fee >= 0 && FirstUse(s, key, i) ==>
          answer == Done(s.txs[i].id, s.txs[i].kind, s.txs[i].amount, s.txs[i].fee, s.txs[i].net, true))
  }

  /** What a commit leaves: one row, an entry for each party and for a fee that is not
      zero, the balances moved, and everybody else as before.
   */
  ghost predicate WrittenAs(s: State, t: State, r: Request, answer: Response, kind: Kind, payer: Option<Account>,
      payee: Option<Account>, amount: int, fee: int, key: string)
  {
    && answer == Done(r.txId, kind, amount, fee, amount - fee, false)
    && t.txs == s.txs + [TxRow(r.txId, key, kind, payer, payee, amount, fee, amount - fee)]
    && t.entries == s.entries
         + (if payer.Some? then [Entry(r.txId, payer.value, Debit, amount)] else [])
         + (if payee.Some? then [Entry(r.txId, payee.value, Credit, amount - fee)] else [])
         + (if fee > 0 then [Entry(r.txId, "ain_soph_fees", Credit, fee)] else [])
    && forall a :: BalanceOf(t.accounts, a) == BalanceOf(s.accounts, a)
         + (if payee == Some(a) then amount - fee else 0) + (if a == "ain_soph_fees" then fee else 0)
         - (if payer == Some(a) then amount else 0)
  }

  ghost predicate ServedAs(s: State, r: Request, kind: Kind, payer: Option<Account>, payee: Option<Account>, amount: int,
      bps: int, key: string)
  {
    var (t, answer) := Apply(s, r);
    && AnsweredAs(s, r, answer, payer, amount, FeeFor(amount, bps), key)
    && (Committed(answer) ==> WrittenAs(s, t, r, answer, kind, payer, payee, amount, FeeFor(amount, bps), key))
    && (!Committed(answer) ==> t == s)
  }

  ghost predicate RejectedAs(s: State, r: Request, why: Failure) {
    Apply(s, r) == (s, Failed(why))
  }

  /** A row as a request in order asks for it. */
  predicate AsksRow(r: Request, row: TxRow) {
    && Rejected(r).None? && row == RequestedRow(r) && row.payer != row.payee && 0 < row.amount <= I64_MAX
    && row.id == r.txId && row.fee == FeeFor(row.amount, row.kind.FeeRate()) && row.net == row.amount - row.fee
  }

  lemma {:induction false} RowIsAnswered(s: State, r: Request, row: TxRow)
    requires AsksRow(r, row)
    ensures AnsweredAs(s, r, Apply(s, r).1, row.payer, row.amount, row.fee, row.key)
    ensures !Committed(Apply(s, r).1) ==> Apply(s, r).0 == s
  {
    FeeNeverOverflowsTheSum(row.amount, row.kind.FeeRate());
    FirstWithKeyExactly(s, row.key);
    assert RowAllowed(row) ==> EntriesAllowed(row);
  }

  lemma {:induction false} RowIsWritten(s: State, r: Request, row: TxRow)
    requires AsksRow(r, row) && Committed(Apply(s, r).1)
    ensures WrittenAs(s, Apply(s, r).0, r, Apply(s, r).1, row.kind, row.payer, row.payee, row.amount, row.fee, row.key)
  {
    forall a
      ensures BalanceOf(Settled(s.accounts, row), a) == BalanceOf(s.accounts, a) + Effect(row, a)
    {
      SettledBalance(s.accounts, row, a);
    }
  }

  /** Everything each of the four requests does, in terms of the request alone: when it
      is rejected, when it commits, replays or fails, and what a commit writes. A tip
      without a key is keyed by its own id, so it replays only if that id is a used key.
   */
  lemma {:induction false} RequestServedExactly(s: State, r: Request)
    requires WellTyped(r)
    ensures match r
            case DepositRequest(user, cents, key, _, _) =>
              if cents <= 0 then RejectedAs(s, r, InvalidAmount)
              else ServedAs(s, r, Deposit, None, Some(user), cents, 250, key)
            case TransferRequest(from, to, cents, key, _, _) =>
              if cents <= 0 then RejectedAs(s, r, InvalidAmount)
              else if from == to then RejectedAs(s, r, Failure.SelfTransfer)
              else ServedAs(s, r, Transfer, Some(from), Some(to), cents, 300, key)
            case TipRequest(from, to, aet, key, id, _) =>
              if aet <= 0.0 then RejectedAs(s, r, InvalidAmount)
              else if from == to then RejectedAs(s, r, Failure.SelfTransfer)
              else if TipUnits(aet) == 0 then RejectedAs(s, r, InvalidAmount)
              else ServedAs(s, r, Tip, Some(from), Some(to), TipUnits(aet), 100, if key == "" then id else key)
            case WithdrawRequest(user, cents, key, _, _) =>
              if cents <= 0 then RejectedAs(s, r, InvalidAmount)
              else ServedAs(s, r, Withdrawal, Some(user), None, cents, 200, key)
  {
    if r.TipRequest? && r.aet > 0.0 {
      TipUnitsRound(r.aet);
    }
    if Rejected(r).None? {
      var row := RequestedRow(r);
      RowIsAnswered(s, r, row);
      if Committed(Apply(s, r).1) {
        RowIsWritten(s, r, row);
      }
    }
  }

  /** A tip without a key is never answered with an earlier payment. */
  lemma {:induction false} KeylessTipIsNew(s: State, r: Request)
    requires r.TipRequest? && r.key == "" && r.from != r.to && r.aet > 0.0 && TipUnits(r.aet) > 0
    requires !KeyUsed(s, r.txId) && forall i :: 0 <= i < |s.txs| ==> s.txs[i].id != r.txId
    ensures var answer := Apply(s, r).1;
            && (Committed(answer) <==> FeeFor(TipUnits(r.aet), 100) >= 0 && r.accepted
                                       && BalanceOf(s.accounts, r.from) >= TipUnits(r.aet))
            && (answer.Done? ==> !answer.replayed)
  {
    RequestServedExactly(s, r);
  }

  /** Who gains and who pays when a request commits, with every aliasing of payer, payee and fee account. */
  lemma {:induction false} CommitMovesExactly(s: State, r: Request, a: Account)
    requires Apply(s, r).1.Done?
    ensures var (t, answer) := Apply(s, r);
            var row := RequestedRow(r);
            BalanceOf(t.accounts, a) == BalanceOf(s.accounts, a) + (if answer.replayed then 0 else Effect(row, a))
            && (!answer.replayed ==> answer == Done(row.id, row.kind, row.amount, row.fee, row.net, false))
            && |t.txs| == |s.txs| + (if answer.replayed then 0 else 1)
  {
  }
}
