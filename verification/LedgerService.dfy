/** The ledger's handlers as they run: one SQL statement after another on rows
    that change in place, with a rollback on every path that does not commit.
    Each is proved to do what its function in `Ledger` says and to keep the books.
 */
module LedgerService {
  import opened Sums
  import opened Fees
  import opened Ledger

  class LedgerDb {
    var accounts: map<Pial, Account>
    var supply: Supply
    var events: seq<Event>

    ghost function Model(): State
      reads this
    {
      State(accounts, supply, events)
    }

    ghost predicate Valid()
      reads this
    {
      Booked(Model())
    }

    constructor ()
      ensures Model() == GENESIS && Valid() && Conserved(Model())
    {
      accounts := map[TREASURY := EMPTY_ACCOUNT];
      supply := Supply(0, 0, 0, 0);
      events := [];
      new;
      GenesisIsSound();
    }

    method EnsureAccount(p: Pial)
      requires Valid()
      modifies this
      ensures Model() == WithRow(old(Model()), p) && Valid()
    {
      EnsuringKeepsBooks(Model(), p);
      if p !in accounts {
        accounts := accounts[p := EMPTY_ACCOUNT];
      }
    }

    method GetBalance(p: Pial) returns (balance: int)
      ensures balance == BalanceOf(Model(), p)
    {
      balance := 0;
      if p in accounts {
        balance := accounts[p].balance;
      }
    }

    /** UPDATE ledger_accounts SET balance + x, total_earned + x WHERE pial_id = p. */
    method CreditAccount(p: Pial, x: int)
      modifies `accounts
      ensures accounts == Credited(old(accounts), p, x)
    {
      if p in accounts {
        accounts := accounts[p := EarnBy(accounts[p], x)];
      }
    }

    method Transfer(kind: Kind, from: Pial, to: Pial, amount: int, key: Option<string>, accepted: bool)
      returns (outcome: Outcome)
      requires Valid()
      modifies this
      ensures (Model(), outcome) == TransferResult(old(Model()), kind, from, to, amount, key, accepted)
      ensures Valid()
    {
      if !kind.IsTransfer() {
        return Refused(BadRequest);
      }
      if amount <= 0 {
        return Refused(BadRequest);
      }
      if from == to {
        return Refused(BadRequest);
      }
      EnsureAccount(from);
      EnsureAccount(to);
      outcome := TransferTransaction(kind, from, to, amount, key, accepted);
    }

    /** The treasury's row is there since the database was created, so the handler's own INSERT of it does nothing. */
    method TransferTransaction(kind: Kind, from: Pial, to: Pial, amount: int, key: Option<string>, accepted: bool)
      returns (outcome: Outcome)
      requires Valid() && kind.IsTransfer() && amount > 0 && from != to
      requires from in accounts && to in accounts
      modifies this
      ensures (Model(), outcome) == TransferTx(old(Model()), kind, from, to, amount, key, accepted)
      ensures Valid()
    {
      TransferTxKeepsBooks(Model(), kind, from, to, amount, key, accepted);
      var fee := FeeFor(amount, kind.FeeRate());
      var totalOut := amount + fee;
      var begun := accounts;
      var senderBalance := accounts[from].balance;
      if senderBalance < totalOut {
        return Refused(InsufficientBalance);
      }
      accounts := accounts[from := SendBy(accounts[from], totalOut)];
      var seqNo := accounts[from].seqNo;
      CreditAccount(to, amount);
      if fee > 0 {
        CreditAccount(TREASURY, fee);
      }
      var taken := exists i :: 0 <= i < |events| && key.Some? && events[i].key == key;
      if taken || !accepted {
        accounts := begun;
        return Refused(Database);
      }
      outcome := Posted(Event(kind, Some(from), Some(to), amount, fee, Some(seqNo), key));
      events := events + [outcome.event];
    }

    method MintInternal(kind: Kind, to: Pial, amount: int, accepted: bool) returns (outcome: Outcome)
      requires Valid() && !kind.IsTransfer() && !kind.Burn?
      modifies this
      ensures (Model(), outcome) == MintResult(old(Model()), kind, to, amount, accepted)
      ensures Valid()
    {
      MintKeepsBooks(Model(), kind, to, amount, accepted);
      EnsureAccount(to);
      var begun := accounts;
      accounts := accounts[to := MintBy(accounts[to], amount)];
      if amount <= 0 || !accepted {
        accounts := begun;
        return Refused(Database);
      }
      outcome := Posted(Event(kind, None, Some(to), amount, 0, None, None));
      events := events + [outcome.event];
      supply := Supply(supply.total + amount, supply.circulating + amount, supply.minted + amount, supply.burned);
    }

    /** An identity without a row is not debited, but its event and supply are written;
        the handler's balance check keeps that from happening.
     */
    method BurnTransaction(from: Pial, amount: int, key: Option<string>, accepted: bool) returns (outcome: Outcome)
      requires Valid()
      modifies this
      ensures (Model(), outcome) == BurnResult(old(Model()), from, amount, key, accepted)
      ensures from in old(accounts) ==> Valid()
    {
      if from in accounts {
        BurnKeepsBooks(Model(), from, amount, key, accepted);
      }
      var begun := accounts;
      if from in accounts {
        accounts := accounts[from := BurnBy(accounts[from], amount)];
      }
      var taken := exists i :: 0 <= i < |events| && key.Some? && events[i].key == key;
      var overdrawn := from in accounts && accounts[from].balance < 0;
      if overdrawn || amount <= 0 || taken || !accepted {
        accounts := begun;
        return Refused(Database);
      }
      outcome := Posted(Event(Kind.Burn, Some(from), None, amount, 0, None, key));
      events := events + [outcome.event];
      supply := Supply(Max(0, supply.total - amount), Max(0, supply.circulating - amount),
                       supply.minted, supply.burned + amount);
    }

    /** burn with nobody in between: the balance check, then the transaction. */
    method Burn(from: Pial, amount: int, key: Option<string>, accepted: bool) returns (outcome: Outcome)
      requires Valid()
      modifies this
      ensures Valid()
      ensures amount <= 0 ==> outcome == Refused(BadRequest)
      ensures amount > 0 && RowOf(old(Model()), from).balance < amount ==> outcome == Refused(InsufficientBalance)
      ensures amount <= 0 || RowOf(old(Model()), from).balance < amount ==> Model() == old(Model())
      ensures 0 < amount <= RowOf(old(Model()), from).balance ==>
                (Model(), outcome) == BurnResult(old(Model()), from, amount, key, accepted)
    {
      if amount <= 0 {
        return Refused(BadRequest);
      }
      var balance := GetBalance(from);
      if balance < amount {
        return Refused(InsufficientBalance);
      }
      outcome := BurnTransaction(from, amount, key, accepted);
    }

    method Fund(p: Pial, cents: int, accepted: bool) returns (outcome: Outcome)
      requires Valid()
      modifies this
      ensures Valid()
      ensures cents <= 0 ==> Model() == old(Model()) && outcome == Refused(BadRequest)
      ensures cents > 0 ==>
                (Model(), outcome) == MintResult(old(Model()), Purchase, p, FundedAmount(cents), accepted)
    {
      if cents <= 0 {
        return Refused(BadRequest);
      }
      var feeCredit := FeeFor(cents, LEDGER_DEPOSIT);
      var netCredit := cents - feeCredit;
      outcome := MintInternal(Purchase, p, Wrap64(netCredit * 100), accepted);
    }
  }
}
