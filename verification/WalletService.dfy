/** The wallet's handlers as they run: statements on rows that change in place
    inside a transaction, and a rollback on every path that does not commit.
    Each is proved to do what `Wallet.Apply` says and to keep the books.
 */
module WalletService {
  import opened Sums
  import opened Fees
  import opened Wallet

  class WalletDb {
    var accounts: map<Account, int>
    var txs: seq<TxRow>
    var entries: seq<Entry>

    ghost function Model(): State
      reads this
    {
      State(accounts, txs, entries)
    }

    ghost predicate Valid()
      reads this
    {
      Inv(Model())
    }

    constructor ()
      ensures Model() == EMPTY && Valid()
    {
      accounts, txs, entries := map[], [], [];
    }

    // ── Statements ───────────────────────────────────────────────────────────

    method EnsureAccount(a: Account)
      modifies `accounts
      ensures accounts == Ensured(old(accounts), Some(a))
    {
      if a !in accounts {
        accounts := accounts[a := 0];
      }
    }

    method CreditAccount(a: Account, x: int)
      modifies `accounts
      ensures accounts == Moved(old(accounts), Some(a), x)
    {
      if a in accounts {
        accounts := accounts[a := accounts[a] + x];
      }
    }

    method DebitAccount(a: Account, x: int)
      modifies `accounts
      ensures accounts == Moved(old(accounts), Some(a), -x)
    {
      if a in accounts {
        accounts := accounts[a := accounts[a] - x];
      }
    }

    method AppendLedger(txId: string, a: Account, side: Side, amount: int)
      modifies `entries
      ensures entries == old(entries) + [Entry(txId, a, side, amount)]
    {
      entries := entries + [Entry(txId, a, side, amount)];
    }

    /** SELECT … WHERE idempotency_key = key: the scan over the transactions table. */
    method FindByKey(key: string) returns (row: Option<TxRow>)
      ensures row == FirstWithKey(txs, key)
    {
      row := None;
      for i := 0 to |txs|
        invariant row == FirstWithKey(txs[..i], key)
      {
        assert txs[..i + 1][..i] == txs[..i];
        if row.None? && txs[i].key == key {
          row := Some(txs[i]);
        }
      }
      assert txs[..|txs|] == txs;
    }

    /** Puts back everything the open transaction wrote. */
    method Rollback(begun: State)
      modifies this
      ensures Model() == begun
    {
      accounts, txs, entries := begun.accounts, begun.txs, begun.entries;
    }

    /** INSERT INTO transactions … ON CONFLICT (idempotency_key) DO NOTHING RETURNING id.
        `refused` is an error, `held` the row that already carries the key. */
    method InsertTransaction(row: TxRow) returns (refused: bool, held: Option<TxRow>)
      modifies `txs
      ensures refused <==> !RowAllowed(row) || (FirstWithKey(old(txs), row.key).None? && IdUsed(old(txs), row.id))
      ensures !refused ==> held == FirstWithKey(old(txs), row.key)
      ensures txs == if !refused && held.None? then old(txs) + [row] else old(txs)
    {
      refused, held := false, None;
      if row.amount <= 0 || row.fee < 0 || row.net < 0 {
        refused := true;
        return;
      }
      held := FindByKey(row.key);
      if held.None? {
        if IdUsed(txs, row.id) {
          refused := true;
          return;
        }
        txs := txs + [row];
      }
    }

    // ── Handlers ─────────────────────────────────────────────────────────────

    /** deposit's transaction. */
    method Bring(user: Account, row: TxRow, accepted: bool) returns (answer: Response)
      requires row.payer.None? && row.payee == Some(user) && (RowAllowed(row) ==> RowSound(row))
      modifies this
      ensures (Model(), answer) == Transact(old(Model()), row, accepted)
    {
      var begun := State(accounts, txs, entries);
      var refused, held := InsertTransaction(row);
      if refused {
        return Failed(Database);
      }
      if held.Some? {
        return Replayed(held.value);
      }
      EnsureAccount(user);
      EnsureAccount(FEE_ACCOUNT);
      CreditAccount(user, row.net);
      CreditAccount(FEE_ACCOUNT, row.fee);
      AppendLedger(row.id, user, Credit, row.net);
      if row.fee > 0 {
        AppendLedger(row.id, FEE_ACCOUNT, Credit, row.fee);
      }
      assert entries == begun.entries + Postings(row);
      if !accepted {
        Rollback(begun);
        return Failed(Database);
      }
      answer := Done(row.id, row.kind, row.amount, row.fee, row.net, false);
    }

    method Deposit(user: Account, cents: int, key: string, txId: string, accepted: bool) returns (answer: Response)
      requires Valid() && cents <= I64_MAX
      modifies this
      ensures (Model(), answer) == Apply(old(Model()), DepositRequest(user, cents, key, txId, accepted))
      ensures Valid()
    {
      ApplyKeepsInv(Model(), DepositRequest(user, cents, key, txId, accepted));
      if cents <= 0 {
        return Failed(InvalidAmount);
      }
      RequestedRowIsSound(DepositRequest(user, cents, key, txId, accepted));
      var fee := FeeFor(cents, WALLET_DEPOSIT);
      var row := TxRow(txId, key, Kind.Deposit, None, Some(user), cents, fee, cents - fee);
      assert row == RequestedRow(DepositRequest(user, cents, key, txId, accepted));
      answer := Bring(user, row, accepted);
    }

    /** The six writes of a payment: debit, two credits and their entries. */
    method MoveAndPost(from: Account, to: Account, row: TxRow)
      requires row.payer == Some(from) && row.payee == Some(to)
      modifies `accounts, `entries
      ensures accounts == Moved(Moved(Moved(old(accounts), row.payer, -row.amount), row.payee, row.net), Some(FEE_ACCOUNT), row.fee)
      ensures entries == old(entries) + Postings(row)
    {
      DebitAccount(from, row.amount);
      CreditAccount(to, row.net);
      CreditAccount(FEE_ACCOUNT, row.fee);
      AppendLedger(row.id, from, Debit, row.amount);
      AppendLedger(row.id, to, Credit, row.net);
      if row.fee > 0 {
        AppendLedger(row.id, FEE_ACCOUNT, Credit, row.fee);
      }
    }

    /** The transaction that transfer and tip share statement for statement. */
    method Pay(from: Account, to: Account, row: TxRow, accepted: bool) returns (answer: Response)
      requires row.payer == Some(from) && row.payee == Some(to) && (RowAllowed(row) ==> RowSound(row))
      modifies this
      ensures (Model(), answer) == Transact(old(Model()), row, accepted)
    {
      var begun := State(accounts, txs, entries);
      var refused, held := InsertTransaction(row);
      if refused {
        return Failed(Database);
      }
      if held.Some? {
        return Replayed(held.value);
      }
      EnsureAccount(from);
      EnsureAccount(to);
      EnsureAccount(FEE_ACCOUNT);
      var senderBalance := accounts[from];
      if senderBalance < row.amount {
        Rollback(begun);
        return Failed(InsufficientBalance);
      }
      MoveAndPost(from, to, row);
      if !accepted {
        Rollback(begun);
        return Failed(Database);
      }
      answer := Done(row.id, row.kind, row.amount, row.fee, row.net, false);
    }

    method Transfer(from: Account, to: Account, cents: int, key: string, txId: string, accepted: bool)
      returns (answer: Response)
      requires Valid() && cents <= I64_MAX
      modifies this
      ensures (Model(), answer) == Apply(old(Model()), TransferRequest(from, to, cents, key, txId, accepted))
      ensures Valid()
    {
      ApplyKeepsInv(Model(), TransferRequest(from, to, cents, key, txId, accepted));
      if cents <= 0 {
        return Failed(InvalidAmount);
      }
      if from == to {
        return Failed(Failure.SelfTransfer);
      }
      RequestedRowIsSound(TransferRequest(from, to, cents, key, txId, accepted));
      var fee := FeeFor(cents, WALLET_TRANSFER);
      var row := TxRow(txId, key, Kind.Transfer, Some(from), Some(to), cents, fee, cents - fee);
      assert row == RequestedRow(TransferRequest(from, to, cents, key, txId, accepted));
      answer := Pay(from, to, row, accepted);
    }

    method Tip(from: Account, to: Account, aet: real, key: string, txId: string, accepted: bool)
      returns (answer: Response)
      requires Valid()
      modifies this
      ensures (Model(), answer) == Apply(old(Model()), TipRequest(from, to, aet, key, txId, accepted))
      ensures Valid()
    {
      ApplyKeepsInv(Model(), TipRequest(from, to, aet, key, txId, accepted));
      if aet <= 0.0 {
        return Failed(InvalidAmount);
      }
      if from == to {
        return Failed(Failure.SelfTransfer);
      }
      var units := TipUnits(aet);
      if units <= 0 {
        return Failed(InvalidAmount);
      }
      RequestedRowIsSound(TipRequest(from, to, aet, key, txId, accepted));
      var fee := FeeFor(units, WALLET_TIP);
      var idem := if key == "" then txId else key;
      var row := TxRow(txId, idem, Kind.Tip, Some(from), Some(to), units, fee, units - fee);
      assert row == RequestedRow(TipRequest(from, to, aet, key, txId, accepted));
      answer := Pay(from, to, row, accepted);
    }

    /** withdraw's transaction. */
    method CashOut(user: Account, row: TxRow, accepted: bool) returns (answer: Response)
      requires row.payer == Some(user) && row.payee.None? && (RowAllowed(row) ==> RowSound(row))
      modifies this
      ensures (Model(), answer) == Transact(old(Model()), row, accepted)
    {
      var begun := State(accounts, txs, entries);
      var refused, held := InsertTransaction(row);
      if refused {
        return Failed(Database);
      }
      if held.Some? {
        return Replayed(held.value);
      }
      EnsureAccount(user);
      EnsureAccount(FEE_ACCOUNT);
      var balance := accounts[user];
      if balance < row.amount {
        Rollback(begun);
        return Failed(InsufficientBalance);
      }
      DebitAccount(user, row.amount);
      CreditAccount(FEE_ACCOUNT, row.fee);
      AppendLedger(row.id, user, Debit, row.amount);
      if row.fee > 0 {
        AppendLedger(row.id, FEE_ACCOUNT, Credit, row.fee);
      }
      assert entries == begun.entries + Postings(row);
      if !accepted {
        Rollback(begun);
        return Failed(Database);
      }
      answer := Done(row.id, row.kind, row.amount, row.fee, row.net, false);
    }

    method Withdraw(user: Account, cents: int, key: string, txId: string, accepted: bool) returns (answer: Response)
      requires Valid() && cents <= I64_MAX
      modifies this
      ensures (Model(), answer) == Apply(old(Model()), WithdrawRequest(user, cents, key, txId, accepted))
      ensures Valid()
    {
      ApplyKeepsInv(Model(), WithdrawRequest(user, cents, key, txId, accepted));
      if cents <= 0 {
        return Failed(InvalidAmount);
      }
      RequestedRowIsSound(WithdrawRequest(user, cents, key, txId, accepted));
      var fee := FeeFor(cents, WALLET_WITHDRAWAL);
      var row := TxRow(txId, key, Withdrawal, Some(user), None, cents, fee, cents - fee);
      assert row == RequestedRow(WithdrawRequest(user, cents, key, txId, accepted));
      answer := CashOut(user, row, accepted);
    }
  }
}
