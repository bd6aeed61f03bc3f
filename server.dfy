/**
 * The transfer handler of the bank backend (bank/server/src/server.ts,
 * `POST /api/transactions`). TransferSpec states, as a function of the
 * store, what the handler answers and what it leaves behind; the method
 * Transfer performs the same steps against the open Database and is proved
 * to agree with it; the lemmas state what the handler promises.
 */
module Server {
  import opened Db
  import opened Models

  /** The request body `{ sourceAccountId, destinationAccountId, amount }`. */
  datatype TransferRequest = TransferRequest(sourceAccountId: int, destinationAccountId: int, amount: int)

  /** The four answers of the handler: 400 "Invalid account(s)", 400
      "Insufficient funds", 200 with the stored transaction, and 500
      "Transaction created but could not be retrieved". */
  datatype Outcome = InvalidAccount | InsufficientFunds | Success(transaction: Transaction) | NotRetrievable

  /** What the handler answers together with the store it leaves. */
  datatype Response = Response(outcome: Outcome, ledger: Ledger)

  /** `accounts.find(a => a.id === id)`: an account with that id, the first
      one in snapshot order, or None (`undefined`) when there is none. */
  function Find(accounts: seq<Account>, id: int): (r: Option<Account>)
    ensures r.Some? <==> id in AccountIds(accounts)
    ensures r.Some? ==> r.value in accounts && r.value.id == id
  {
    match IndexOf(AccountIds(accounts), id)
    case None => None
    case Some(k) => Some(accounts[k])
  }

  /** `find` scans in snapshot order: the account found is the first one
      carrying the id. */
  lemma FindFirst(accounts: seq<Account>, id: int)
    ensures var r := Find(accounts, id);
      r.Some? ==>
        exists k :: 0 <= k < |accounts| && accounts[k] == r.value && id !in AccountIds(accounts)[..k]
  {
    var ids := AccountIds(accounts);
    match IndexOf(ids, id)
    case None =>
    case Some(k) =>
      assert accounts[k].id == ids[k];
  }

  /** With unique ids, the account found is the one row carrying the id. */
  lemma FindAscending(accounts: seq<Account>, k: nat)
    requires Ascending(AccountIds(accounts)) && k < |accounts|
    ensures Find(accounts, accounts[k].id) == Some(accounts[k])
  {
    IndexOfAscending(AccountIds(accounts), k);
  }

  /** Steps 1 to 3 on the snapshot: the rejection a request gets, if any.
      The ids are resolved before the funds are looked at. */
  function Validate(accounts: seq<Account>, req: TransferRequest): (r: Option<Outcome>)
    ensures r.Some? ==> r.value == InvalidAccount || r.value == InsufficientFunds
    ensures r == Some(InvalidAccount) <==>
      req.sourceAccountId !in AccountIds(accounts) || req.destinationAccountId !in AccountIds(accounts)
  {
    var source := Find(accounts, req.sourceAccountId);
    var destination := Find(accounts, req.destinationAccountId);
    if source.None? || destination.None? then Some(InvalidAccount)
    else if source.value.availableCash < req.amount then Some(InsufficientFunds)
    else None
  }

  /** Steps 4 and 5 on the store: debit the source, credit the destination,
      insert the transaction record. */
  function Settled(l: Ledger, req: TransferRequest, now: int): (r: Ledger)
    ensures AccountIds(r.accounts.rows) == AccountIds(l.accounts.rows) && r.accounts.lastId == l.accounts.lastId
    ensures forall i :: 0 <= i < |r.accounts.rows| ==> r.accounts.rows[i].name == l.accounts.rows[i].name
    ensures |r.transactions.rows| == |l.transactions.rows| + 1
      && r.transactions.rows[..|l.transactions.rows|] == l.transactions.rows
  {
    var debited := Credit(l.accounts.rows, req.sourceAccountId, -req.amount);
    var credited := Credit(debited, req.destinationAccountId, req.amount);
    Ledger(l.accounts.(rows := credited),
           Appended(l.transactions, now, req.sourceAccountId, req.destinationAccountId, req.amount))
  }

  /** The handler as a function of the store: what it answers and what it
      leaves behind. After settling, the record is read back by the id that
      the insert reported. */
  function TransferSpec(l: Ledger, req: TransferRequest, now: int): (r: Response)
    ensures r.outcome == InvalidAccount || r.outcome == InsufficientFunds ==> r.ledger == l
    ensures r.outcome.Success? ==>
      && r.outcome.transaction in r.ledger.transactions.rows
      && r.outcome.transaction.id == r.ledger.transactions.lastId
  {
    match Validate(GetAll(l.accounts), req)
    case Some(rejection) => Response(rejection, l)
    case None =>
      var stored := Settled(l, req, now);
      match GetById(stored.transactions, stored.transactions.lastId)
      case Some(tx) => Response(Success(tx), stored)
      case None => Response(NotRetrievable, stored)
  }

  /** The POST /api/transactions handler, `now` standing for Date.now(). */
  method Transfer(db: Database, req: TransferRequest, now: int) returns (outcome: Outcome)
    requires db.Valid()
    modifies db
    ensures db.Valid() && db.initialized == old(db.initialized)
    ensures Response(outcome, db.State()) == TransferSpec(old(db.State()), req, now)
  {
    ghost var before := db.State();
    var accounts := GetAll(db.accounts);
    var source := Find(accounts, req.sourceAccountId);
    var destination := Find(accounts, req.destinationAccountId);
    if source.None? || destination.None? {
      return InvalidAccount;
    }
    if source.value.availableCash < req.amount {
      return InsufficientFunds;
    }
    var debited := UpdateBalance(db, req.sourceAccountId, -req.amount);
    var credited := UpdateBalance(db, req.destinationAccountId, req.amount);
    assert debited == 1 && credited == 1;
    var transactionId := CreateTransaction(db, req.sourceAccountId, req.destinationAccountId, req.amount, now);
    assert db.State() == Settled(before, req, now);
    GetByIdAfterCreate(before.transactions, now, req.sourceAccountId, req.destinationAccountId, req.amount);
    var transaction := GetById(db.transactions, transactionId);
    if transaction.Some? {
      outcome := Success(transaction.value);
    } else {
      outcome := NotRetrievable;
    }
  }

  /** What the validation steps decide, stated on the snapshot's rows. */
  lemma {:induction false} ValidateDecides(accounts: seq<Account>, req: TransferRequest)
    requires Ascending(AccountIds(accounts))
    ensures var ids := AccountIds(accounts);
      var v := Validate(accounts, req);
      && (v == Some(InvalidAccount) <==> req.sourceAccountId !in ids || req.destinationAccountId !in ids)
      && (v == Some(InsufficientFunds) <==>
            && req.destinationAccountId in ids
            && exists i :: 0 <= i < |accounts| && accounts[i].id == req.sourceAccountId
                             && accounts[i].availableCash < req.amount)
      && (v == None <==>
            && req.destinationAccountId in ids
            && exists i :: 0 <= i < |accounts| && accounts[i].id == req.sourceAccountId
                             && accounts[i].availableCash >= req.amount)
  {
    if i :| 0 <= i < |accounts| && accounts[i].id == req.sourceAccountId {
      FindAscending(accounts, i);
      forall j | 0 <= j < |accounts| && accounts[j].id == req.sourceAccountId
        ensures j == i
      {
        assert AccountIds(accounts)[j] == AccountIds(accounts)[i];
      }
    }
  }

  /** The handler's answer once validation has decided: a rejection leaves
      the store as it was; an accepted request settles and is answered with
      the record just inserted, so the 500 answer never occurs. */
  lemma {:induction false} TransferSpecCases(l: Ledger, req: TransferRequest, now: int)
    requires LedgerValid(l)
    ensures var v := Validate(l.accounts.rows, req);
      v.Some? ==> TransferSpec(l, req, now) == Response(v.value, l)
    ensures var stored := Settled(l, req, now);
      Validate(l.accounts.rows, req).None? ==>
        TransferSpec(l, req, now) == Response(Success(Transaction(stored.transactions.lastId, now, now, 1,
          req.amount, req.sourceAccountId, req.destinationAccountId)), stored)
  {
    GetByIdAfterCreate(l.transactions, now, req.sourceAccountId, req.destinationAccountId, req.amount);
  }

  /** Either id missing from the snapshot gives InvalidAccount and changes
      nothing. The ids are resolved before the funds are looked at, so this
      holds whatever the amount. */
  lemma {:induction false} UnknownAccountRejected(l: Ledger, req: TransferRequest, now: int)
    requires LedgerValid(l)
    ensures var ids := AccountIds(l.accounts.rows);
      var r := TransferSpec(l, req, now);
      (r.outcome == InvalidAccount <==> req.sourceAccountId !in ids || req.destinationAccountId !in ids)
      && (r.outcome == InvalidAccount ==> r.ledger == l)
  {
    ValidateDecides(l.accounts.rows, req);
    TransferSpecCases(l, req, now);
  }

  /** With both ids known, a source balance strictly below the amount gives
      InsufficientFunds and changes nothing. */
  lemma {:induction false} InsufficientFundsRejected(l: Ledger, req: TransferRequest, now: int)
    requires LedgerValid(l)
    ensures var rows := l.accounts.rows;
      var r := TransferSpec(l, req, now);
      (r.outcome == InsufficientFunds <==>
        && req.destinationAccountId in AccountIds(rows)
        && exists i :: 0 <= i < |rows| && rows[i].id == req.sourceAccountId && rows[i].availableCash < req.amount)
      && (r.outcome == InsufficientFunds ==> r.ledger == l)
  {
    ValidateDecides(l.accounts.rows, req);
    TransferSpecCases(l, req, now);
  }

  /** The transfer succeeds exactly when both ids are known and the source
      balance is at least the amount: an amount equal to the balance is
      accepted, and so is any amount of zero or below, since no sign check
      exists. The 500 answer for a record that cannot be read back never
      occurs. */
  lemma {:induction false} TransferSucceeds(l: Ledger, req: TransferRequest, now: int)
    requires LedgerValid(l)
    ensures var rows := l.accounts.rows;
      var r := TransferSpec(l, req, now);
      (r.outcome.Success? <==>
        && req.destinationAccountId in AccountIds(rows)
        && exists i :: 0 <= i < |rows| && rows[i].id == req.sourceAccountId && rows[i].availableCash >= req.amount)
      && !r.outcome.NotRetrievable?
  {
    ValidateDecides(l.accounts.rows, req);
    TransferSpecCases(l, req, now);
  }

  /** On success the source loses exactly the amount, the destination gains
      exactly the amount (the two cancel when they are the same account),
      and every other account, every id and every name is unchanged. */
  lemma {:induction false} SuccessMovesAmount(l: Ledger, req: TransferRequest, now: int)
    requires LedgerValid(l)
    ensures var before := l.accounts.rows;
      var r := TransferSpec(l, req, now);
      var after := r.ledger.accounts.rows;
      r.outcome.Success? ==>
        && |after| == |before|
        && AccountIds(after) == AccountIds(before)
        && r.ledger.accounts.lastId == l.accounts.lastId
        && forall i :: 0 <= i < |before| ==>
             && after[i].name == before[i].name
             && after[i].availableCash == before[i].availableCash
                  - (if before[i].id == req.sourceAccountId then req.amount else 0)
                  + (if before[i].id == req.destinationAccountId then req.amount else 0)
  {
    TransferSpecCases(l, req, now);
  }

  /** The debit and the credit together leave the total where it was, when
      both ids are keys of the table (also when they are the same key). */
  lemma {:induction false} MoveConservesTotal(rows: seq<Account>, sourceAccountId: int,
                                              destinationAccountId: int, amount: int)
    requires Ascending(AccountIds(rows))
    requires sourceAccountId in AccountIds(rows) && destinationAccountId in AccountIds(rows)
    ensures Total(Credit(Credit(rows, sourceAccountId, -amount), destinationAccountId, amount)) == Total(rows)
  {
    var debited := Credit(rows, sourceAccountId, -amount);
    CreditTotal(rows, sourceAccountId, -amount);
    CreditTotal(debited, destinationAccountId, amount);
  }

  /** A transfer leaves the sum of all balances unchanged, whatever its answer. */
  lemma {:induction false} TransferConservesTotal(l: Ledger, req: TransferRequest, now: int)
    requires LedgerValid(l)
    ensures Total(TransferSpec(l, req, now).ledger.accounts.rows) == Total(l.accounts.rows)
  {
    TransferSpecCases(l, req, now);
    if Validate(l.accounts.rows, req).None? {
      MoveConservesTotal(l.accounts.rows, req.sourceAccountId, req.destinationAccountId, req.amount);
    }
  }

  /** Both balance updates of a successful transfer change exactly one row:
      the two ids were just found in the snapshot and id is the key. */
  lemma {:induction false} SuccessTouchesOneRowEach(l: Ledger, req: TransferRequest, now: int)
    requires LedgerValid(l)
    ensures var rows := l.accounts.rows;
      TransferSpec(l, req, now).outcome.Success? ==>
        && CountId(AccountIds(rows), req.sourceAccountId) == 1
        && CountId(AccountIds(Credit(rows, req.sourceAccountId, -req.amount)), req.destinationAccountId) == 1
  {
    var rows := l.accounts.rows;
    ValidateDecides(rows, req);
    TransferSpecCases(l, req, now);
    CountIdUnique(AccountIds(rows), req.sourceAccountId);
    CountIdUnique(AccountIds(rows), req.destinationAccountId);
  }

  /** A successful transfer appends exactly one transaction, with the
      request's amount and account ids, the time of the request, a success
      flag of 1 and an id no earlier transaction has; that record is what
      the handler returns. A rejection appends nothing. */
  lemma {:induction false} SuccessRecordsTransaction(l: Ledger, req: TransferRequest, now: int)
    requires LedgerValid(l)
    ensures var r := TransferSpec(l, req, now);
      r.outcome.Success? ==>
        && r.ledger.transactions.rows == l.transactions.rows + [r.outcome.transaction]
        && r.outcome.transaction == Transaction(r.ledger.transactions.lastId, now, now, 1,
             req.amount, req.sourceAccountId, req.destinationAccountId)
        && r.outcome.transaction.id !in TransactionIds(l.transactions.rows)
    ensures var r := TransferSpec(l, req, now);
      !r.outcome.Success? ==> r.ledger.transactions == l.transactions
  {
    TransferSpecCases(l, req, now);
    var t := l.transactions;
    var after := Appended(t, now, req.sourceAccountId, req.destinationAccountId, req.amount);
    assert after.rows == after.rows[..|t.rows|] + [after.rows[|t.rows|]];
    assert forall i :: 0 <= i < |t.rows| ==> TransactionIds(t.rows)[i] == t.rows[i].id;
  }

  /** Every answer leaves a store whose keys and names are still valid. */
  lemma {:induction false} TransferPreservesValid(l: Ledger, req: TransferRequest, now: int)
    requires LedgerValid(l)
    ensures LedgerValid(TransferSpec(l, req, now).ledger)
  {
    TransferSpecCases(l, req, now);
    var rows := l.accounts.rows;
    var credited := Settled(l, req, now).accounts.rows;
    assert NamesDistinct(credited);
  }

  /** When every balance is non-negative and the amount is non-negative, a
      transfer leaves every balance non-negative: the funds check is what
      keeps the source from going below zero. */
  lemma {:induction false} NonNegativeBalancesKept(l: Ledger, req: TransferRequest, now: int)
    requires LedgerValid(l) && req.amount >= 0
    requires forall i :: 0 <= i < |l.accounts.rows| ==> l.accounts.rows[i].availableCash >= 0
    ensures var after := TransferSpec(l, req, now).ledger.accounts.rows;
      forall i :: 0 <= i < |after| ==> after[i].availableCash >= 0
  {
    var rows := l.accounts.rows;
    TransferSpecCases(l, req, now);
    if Validate(rows, req).None? {
      SuccessMovesAmount(l, req, now);
      forall i | 0 <= i < |rows| && rows[i].id == req.sourceAccountId
        ensures rows[i].availableCash >= req.amount
      {
        FindAscending(rows, i);
      }
    }
  }

  /** Without a sign check a negative amount is accepted and runs the
      transfer backwards, so it can take the destination below zero. */
  lemma NegativeAmountOverdraws(now: int)
    ensures var l := Ledger(AccountTable([Account(1, "A", 0), Account(2, "B", 0)], 2), TransactionTable([], 0));
      var r := TransferSpec(l, TransferRequest(1, 2, -10), now);
      r.outcome.Success? && r.ledger.accounts.rows[1].availableCash == -10
  {
    var l := Ledger(AccountTable([Account(1, "A", 0), Account(2, "B", 0)], 2), TransactionTable([], 0));
    assert AccountIds(l.accounts.rows) == [1, 2];
    FindAscending(l.accounts.rows, 0);
    FindAscending(l.accounts.rows, 1);
    TransferSucceeds(l, TransferRequest(1, 2, -10), now);
  }

  /** The five seeded accounts after 1000 has moved from Sanna to Checking
      Account. */
  const SeededAfterTransfer := [
    Account(1, "Sanna", 4000),
    Account(2, "Checking Account", 3500),
    Account(3, "Investment Account", 10000),
    Account(4, "Emergency Fund", 3000),
    Account(5, "Travel Savings", 1500)
  ]

  /** Debiting account 1 and crediting account 2 by 1000 on the seeded table. */
  lemma SeededSettled()
    ensures Credit(Credit(SeededAccounts.rows, 1, -1000), 2, 1000) == SeededAfterTransfer
  {
    var rows := SeededAccounts.rows;
    var after := Credit(Credit(rows, 1, -1000), 2, 1000);
    assert AccountIds(rows) == [1, 2, 3, 4, 5];
    forall i | 0 <= i < 5
      ensures after[i] == SeededAfterTransfer[i]
    {
      assert after[i].id == AccountIds(after)[i] == AccountIds(rows)[i];
    }
  }

  /** On a freshly seeded store, a transfer of 1000 from account 1 to account
      2 succeeds, is recorded as transaction 1 and moves the money. */
  lemma SeededTransfer(now: int)
    ensures var l := Ledger(SeededAccounts, TransactionTable([], 0));
      var r := TransferSpec(l, TransferRequest(1, 2, 1000), now);
      && r.outcome == Success(Transaction(1, now, now, 1, 1000, 1, 2))
      && r.ledger.accounts.rows == SeededAfterTransfer
  {
    var l := Ledger(SeededAccounts, TransactionTable([], 0));
    SeededAccountsValid();
    assert LedgerValid(l);
    SeededValidates();
    TransferSpecCases(l, TransferRequest(1, 2, 1000), now);
    SeededSettled();
  }

  /** Both ids exist in the seeded table and account 1 holds at least 1000. */
  lemma SeededValidates()
    ensures Validate(SeededAccounts.rows, TransferRequest(1, 2, 1000)) == None
  {
    var rows := SeededAccounts.rows;
    assert AccountIds(rows) == [1, 2, 3, 4, 5];
    FindAscending(rows, 0);
    FindAscending(rows, 1);
  }

  /**
   * First start-up followed by a transfer of 1000 from Sanna to Checking
   * Account: a fresh database, Init run twice (the second run finds the
   * marker and seeds nothing), the accounts listed, then the transfer.
   */
  method StartupScenario(now: int) returns (outcome: Outcome, accounts: seq<Account>)
    ensures outcome == Success(Transaction(1, now, now, 1, 1000, 1, 2))
    ensures accounts == SeededAfterTransfer
  {
    var db := new Database();
    db.Init();
    db.Init();
    InitialSeedOnEmpty();
    outcome := Transfer(db, TransferRequest(1, 2, 1000), now);
    SeededTransfer(now);
    accounts := GetAll(db.accounts);
  }
}
