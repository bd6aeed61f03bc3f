/**
 * The ledger store of the bank backend (bank/server/src/db.ts): the two
 * tables, their AUTOINCREMENT keys, the seeding of the five fixed accounts
 * with INSERT OR IGNORE, and the initialisation guarded by a marker flag.
 *
 * A table is its rows in rowid order together with its AUTOINCREMENT
 * counter (the table's entry in sqlite_sequence). Every INSERT draws the
 * counter plus one as its id and advances the counter, also when the row is
 * then dropped by OR IGNORE.
 */
module Db {

  datatype Option<T> = None | Some(value: T)

  /** A row of the `accounts` table: id INTEGER PRIMARY KEY AUTOINCREMENT,
      name TEXT UNIQUE, availableCash (a balance, a whole number here). */
  datatype Account = Account(id: int, name: string, availableCash: int)

  /** A row of the `transactions` table. The two account ids are plain
      integers: the foreign keys are declared but not enforced. */
  datatype Transaction = Transaction(
    id: int,
    registeredTime: int,
    executedTime: int,
    success: int,
    cashAmount: int,
    sourceAccountId: int,
    destinationAccountId: int)

  datatype AccountTable = AccountTable(rows: seq<Account>, lastId: nat)

  datatype TransactionTable = TransactionTable(rows: seq<Transaction>, lastId: nat)

  /** The whole database file. */
  datatype Ledger = Ledger(accounts: AccountTable, transactions: TransactionTable)

  const EmptyLedger := Ledger(AccountTable([], 0), TransactionTable([], 0))

  function AccountIds(rows: seq<Account>): seq<int>
  {
    seq(|rows|, i requires 0 <= i < |rows| => rows[i].id)
  }

  function TransactionIds(rows: seq<Transaction>): seq<int>
  {
    seq(|rows|, i requires 0 <= i < |rows| => rows[i].id)
  }

  /** Rowid order: rows are never deleted and every new id is larger than
      all earlier ones, so ids increase strictly in insertion order. */
  predicate Ascending(ids: seq<int>)
  {
    forall i, j :: 0 <= i < j < |ids| ==> ids[i] < ids[j]
  }

  /** The key invariant of an AUTOINCREMENT table whose counter is `lastId`. */
  predicate KeysValid(ids: seq<int>, lastId: int)
  {
    Ascending(ids) && forall i :: 0 <= i < |ids| ==> 1 <= ids[i] <= lastId
  }

  /** The UNIQUE constraint on account names. */
  predicate NamesDistinct(rows: seq<Account>)
  {
    forall i, j :: 0 <= i < j < |rows| ==> rows[i].name != rows[j].name
  }

  predicate HasName(rows: seq<Account>, name: string)
  {
    exists i :: 0 <= i < |rows| && rows[i].name == name
  }

  predicate AccountTableValid(t: AccountTable)
  {
    KeysValid(AccountIds(t.rows), t.lastId) && NamesDistinct(t.rows)
  }

  predicate TransactionTableValid(t: TransactionTable)
  {
    KeysValid(TransactionIds(t.rows), t.lastId)
  }

  predicate LedgerValid(l: Ledger)
  {
    AccountTableValid(l.accounts) && TransactionTableValid(l.transactions)
  }

  /** Lookup by primary key: the position of the first row whose id is `id`. */
  function IndexOf(ids: seq<int>, id: int): (r: Option<nat>)
    ensures r.Some? <==> id in ids
    ensures r.Some? ==> r.value < |ids| && ids[r.value] == id && id !in ids[..r.value]
  {
    if ids == [] then None
    else if ids[0] == id then Some(0)
    else match IndexOf(ids[1..], id)
      case None => None
      case Some(k) =>
        assert ids[..k + 1] == [ids[0]] + ids[1..][..k];
        Some(k + 1)
  }

  /** With ascending keys the first row carrying a key is the only one. */
  lemma IndexOfAscending(ids: seq<int>, k: nat)
    requires Ascending(ids) && k < |ids|
    ensures IndexOf(ids, ids[k]) == Some(k)
  {
  }

  /**
   * `INSERT OR IGNORE INTO accounts (name, availableCash) VALUES (?, ?)`:
   * the next AUTOINCREMENT id is drawn first; a name that is already
   * present then violates UNIQUE and no row is stored, otherwise one row is
   * appended under the drawn id.
   */
  function InsertOrIgnore(t: AccountTable, name: string, availableCash: int): (r: AccountTable)
    ensures r.lastId == t.lastId + 1
    ensures HasName(t.rows, name) ==> r.rows == t.rows
    ensures !HasName(t.rows, name) ==>
      && |r.rows| == |t.rows| + 1
      && r.rows[..|t.rows|] == t.rows
      && r.rows[|t.rows|] == Account(r.lastId, name, availableCash)
  {
    if HasName(t.rows, name) then t.(lastId := t.lastId + 1)
    else
      var r := AccountTable(t.rows + [Account(t.lastId + 1, name, availableCash)], t.lastId + 1);
      assert r.rows[..|t.rows|] == t.rows;
      r
  }

  /** After an insert-or-ignore the name is present, names are still
      pairwise distinct, and ids still increase in rowid order. */
  lemma InsertOrIgnoreValid(t: AccountTable, name: string, availableCash: int)
    ensures HasName(InsertOrIgnore(t, name, availableCash).rows, name)
    ensures AccountTableValid(t) ==> AccountTableValid(InsertOrIgnore(t, name, availableCash))
  {
    var r := InsertOrIgnore(t, name, availableCash);
    if !HasName(t.rows, name) {
      assert r.rows[|t.rows|].name == name;
      assert AccountIds(r.rows) == AccountIds(t.rows) + [t.lastId + 1];
    }
  }

  /** One entry of the fixed seed list. */
  datatype SeedAccount = SeedAccount(name: string, availableCash: int)

  /** The accounts inserted at first start-up, in insertion order. */
  const InitialAccounts: seq<SeedAccount> := [
    SeedAccount("Sanna", 5000),
    SeedAccount("Checking Account", 2500),
    SeedAccount("Investment Account", 10000),
    SeedAccount("Emergency Fund", 3000),
    SeedAccount("Travel Savings", 1500)
  ]

  /** The table after INSERT OR IGNORE of every entry of `seeds`, in order. */
  function Seed(t: AccountTable, seeds: seq<SeedAccount>): (r: AccountTable)
    ensures r.lastId == t.lastId + |seeds|
    ensures |t.rows| <= |r.rows| <= |t.rows| + |seeds|
    decreases |seeds|
  {
    if seeds == [] then t
    else
      var last := seeds[|seeds| - 1];
      InsertOrIgnore(Seed(t, seeds[..|seeds| - 1]), last.name, last.availableCash)
  }

  /** Seeding only appends: existing rows, their ids and balances are kept,
      and the table invariants are preserved. */
  lemma {:induction false} SeedKeepsRows(t: AccountTable, seeds: seq<SeedAccount>)
    ensures Seed(t, seeds).rows[..|t.rows|] == t.rows
    ensures AccountTableValid(t) ==> AccountTableValid(Seed(t, seeds))
    decreases |seeds|
  {
    if seeds != [] {
      var prefix := seeds[..|seeds| - 1];
      SeedKeepsRows(t, prefix);
      var mid := Seed(t, prefix);
      var last := seeds[|seeds| - 1];
      InsertOrIgnoreValid(mid, last.name, last.availableCash);
      if !HasName(mid.rows, last.name) {
        assert Seed(t, seeds).rows[..|t.rows|] == mid.rows[..|t.rows|];
      }
    }
  }

  /** After seeding, every seed name is present in the table. */
  lemma {:induction false} SeedCoversNames(t: AccountTable, seeds: seq<SeedAccount>)
    ensures forall k :: 0 <= k < |seeds| ==> HasName(Seed(t, seeds).rows, seeds[k].name)
    decreases |seeds|
  {
    if seeds != [] {
      var prefix := seeds[..|seeds| - 1];
      SeedCoversNames(t, prefix);
      var mid := Seed(t, prefix);
      var last := seeds[|seeds| - 1];
      var after := Seed(t, seeds);
      assert after == InsertOrIgnore(mid, last.name, last.availableCash);
      InsertOrIgnoreValid(mid, last.name, last.availableCash);
      assert |after.rows| >= |mid.rows| && after.rows[..|mid.rows|] == mid.rows;
      forall k | 0 <= k < |seeds|
        ensures HasName(after.rows, seeds[k].name)
      {
        if k < |prefix| {
          assert prefix[k] == seeds[k];
          var i :| 0 <= i < |mid.rows| && mid.rows[i].name == seeds[k].name;
          assert after.rows[i] == after.rows[..|mid.rows|][i];
        }
      }
    }
  }

  /** Seeding a table that already holds every seed name stores no row; only
      the counter moves, by one per ignored insert. */
  lemma {:induction false} SeedNoOp(t: AccountTable, seeds: seq<SeedAccount>)
    requires forall k :: 0 <= k < |seeds| ==> HasName(t.rows, seeds[k].name)
    ensures Seed(t, seeds) == t.(lastId := t.lastId + |seeds|)
    decreases |seeds|
  {
    if seeds != [] {
      var prefix := seeds[..|seeds| - 1];
      assert forall k :: 0 <= k < |prefix| ==> prefix[k] == seeds[k];
      SeedNoOp(t, prefix);
      assert HasName(t.rows, seeds[|seeds| - 1].name);
    }
  }

  /** insertInitialAccounts is idempotent on the rows: running it again on
      a seeded table, whatever else that table holds, stores nothing; the
      counter moves on by one per ignored insert. */
  lemma SeedIdempotent(t: AccountTable, seeds: seq<SeedAccount>)
    ensures var once := Seed(t, seeds);
      Seed(once, seeds) == once.(lastId := once.lastId + |seeds|)
  {
    SeedCoversNames(t, seeds);
    SeedNoOp(Seed(t, seeds), seeds);
  }

  predicate SeedNamesDistinct(seeds: seq<SeedAccount>)
  {
    forall i, j :: 0 <= i < j < |seeds| ==> seeds[i].name != seeds[j].name
  }

  lemma NameAbsentFromConcat(a: seq<Account>, b: seq<Account>, name: string)
    requires !HasName(a, name) && !HasName(b, name)
    ensures !HasName(a + b, name)
  {
    forall i | 0 <= i < |a + b|
      ensures (a + b)[i].name != name
    {
      if i >= |a| {
        assert (a + b)[i] == b[i - |a|];
      }
    }
  }

  /** `r` holds the rows of `t` followed by one fresh row per seed, with
      consecutive ids after `t.lastId`. */
  ghost predicate FreshlySeeded(r: AccountTable, t: AccountTable, seeds: seq<SeedAccount>)
  {
    && |r.rows| == |t.rows| + |seeds|
    && r.lastId == t.lastId + |seeds|
    && r.rows[..|t.rows|] == t.rows
    && forall k :: 0 <= k < |seeds| ==>
         r.rows[|t.rows| + k] == Account(t.lastId + 1 + k, seeds[k].name, seeds[k].availableCash)
  }

  /** One seeding step: inserting a name that is neither in `t` nor among the
      seeds already added appends it as the next fresh row. */
  lemma SeedFreshStep(t: AccountTable, mid: AccountTable, seeds: seq<SeedAccount>)
    requires |seeds| > 0
    requires FreshlySeeded(mid, t, seeds[..|seeds| - 1])
    requires !HasName(t.rows, seeds[|seeds| - 1].name)
    requires forall k :: 0 <= k < |seeds| - 1 ==> seeds[k].name != seeds[|seeds| - 1].name
    ensures FreshlySeeded(InsertOrIgnore(mid, seeds[|seeds| - 1].name, seeds[|seeds| - 1].availableCash), t, seeds)
  {
    var n := |seeds| - 1;
    var last := seeds[n];
    var added := mid.rows[|t.rows|..];
    assert mid.rows == t.rows + added;
    assert !HasName(added, last.name) by {
      forall i | 0 <= i < |added|
        ensures added[i].name != last.name
      {
        assert added[i] == mid.rows[|t.rows| + i];
        assert seeds[..n][i] == seeds[i];
      }
    }
    NameAbsentFromConcat(t.rows, added, last.name);
    var r := InsertOrIgnore(mid, last.name, last.availableCash);
    assert r.rows[..|mid.rows|] == mid.rows;
    forall k | 0 <= k < |seeds|
      ensures r.rows[|t.rows| + k] == Account(t.lastId + 1 + k, seeds[k].name, seeds[k].availableCash)
    {
      if k < n {
        assert r.rows[|t.rows| + k] == mid.rows[|t.rows| + k];
        assert seeds[..n][k] == seeds[k];
      }
    }
    assert r.rows[..|t.rows|] == mid.rows[..|t.rows|];
  }

  /** Seeding with distinct names none of which is taken appends one row per
      seed, in list order, with consecutive (so distinct, increasing) ids. */
  lemma {:induction false} SeedFresh(t: AccountTable, seeds: seq<SeedAccount>)
    requires SeedNamesDistinct(seeds)
    requires forall k :: 0 <= k < |seeds| ==> !HasName(t.rows, seeds[k].name)
    ensures FreshlySeeded(Seed(t, seeds), t, seeds)
    decreases |seeds|
  {
    if seeds == [] {
      assert t.rows[..|t.rows|] == t.rows;
    } else {
      var n := |seeds| - 1;
      var prefix := seeds[..n];
      assert forall k :: 0 <= k < |prefix| ==> prefix[k] == seeds[k];
      SeedFresh(t, prefix);
      assert Seed(t, seeds) == InsertOrIgnore(Seed(t, prefix), seeds[n].name, seeds[n].availableCash);
      SeedFreshStep(t, Seed(t, prefix), seeds);
    }
  }

  /** The accounts table of a fresh database once it has been seeded. */
  const SeededAccounts := AccountTable([
    Account(1, "Sanna", 5000),
    Account(2, "Checking Account", 2500),
    Account(3, "Investment Account", 10000),
    Account(4, "Emergency Fund", 3000),
    Account(5, "Travel Savings", 1500)
  ], 5)

  /** Seeding the empty accounts table of a fresh database yields exactly the
      five listed accounts, in list order, with ids 1 to 5. */
  lemma InitialSeedOnEmpty()
    ensures Seed(AccountTable([], 0), InitialAccounts) == SeededAccounts
  {
    InitialNamesDistinct();
    var empty := AccountTable([], 0);
    SeedFresh(empty, InitialAccounts);
    var rows := Seed(empty, InitialAccounts).rows;
    assert |rows| == 5;
    forall k | 0 <= k < 5
      ensures rows[k] == Account(k + 1, InitialAccounts[k].name, InitialAccounts[k].availableCash)
    {
      assert rows[|empty.rows| + k] == rows[k];
    }
  }

  /** The seeded table satisfies the key and name constraints: seeding keeps
      a valid table valid, and the empty table is valid. */
  lemma SeededAccountsValid()
    ensures AccountTableValid(SeededAccounts)
  {
    InitialSeedOnEmpty();
    SeedKeepsRows(AccountTable([], 0), InitialAccounts);
  }

  /** One more seed at the end of the list is one more insert at the end. */
  lemma SeedSnoc(t: AccountTable, seeds: seq<SeedAccount>, x: SeedAccount)
    ensures Seed(t, seeds + [x]) == InsertOrIgnore(Seed(t, seeds), x.name, x.availableCash)
  {
    assert (seeds + [x])[..|seeds|] == seeds;
  }

  /** Seeding with one list and then another is seeding with both, in order. */
  lemma {:induction false} SeedConcat(t: AccountTable, a: seq<SeedAccount>, b: seq<SeedAccount>)
    ensures Seed(t, a + b) == Seed(Seed(t, a), b)
    decreases |b|
  {
    if b == [] {
      assert a + b == a;
    } else {
      var n := |b| - 1;
      SeedConcat(t, a, b[..n]);
      assert b == b[..n] + [b[n]];
      assert a + b == (a + b[..n]) + [b[n]];
      SeedSnoc(t, a + b[..n], b[n]);
      SeedSnoc(Seed(t, a), b[..n], b[n]);
    }
  }

  /** A store holding only Sanna (id 1) and no marker: seeding skips Sanna
      but still draws id 2 for it, so the other four accounts get ids 3 to 6
      and the counter ends at 6. */
  lemma SeedAfterTakenName()
    ensures Seed(AccountTable([Account(1, "Sanna", 5000)], 1), InitialAccounts) == AccountTable([
      Account(1, "Sanna", 5000),
      Account(3, "Checking Account", 2500),
      Account(4, "Investment Account", 10000),
      Account(5, "Emergency Fund", 3000),
      Account(6, "Travel Savings", 1500)
    ], 6)
  {
    var t := AccountTable([Account(1, "Sanna", 5000)], 1);
    var rest := InitialAccounts[1..];
    assert InitialAccounts == InitialAccounts[..1] + rest;
    SeedConcat(t, InitialAccounts[..1], rest);
    SannaSkipped();
    RestSeeded();
  }

  /** After Sanna's skipped insert, the other four seeds are appended as
      fresh rows with ids 3 to 6. */
  lemma RestSeeded()
    ensures Seed(AccountTable([Account(1, "Sanna", 5000)], 2), InitialAccounts[1..]) == AccountTable([
      Account(1, "Sanna", 5000),
      Account(3, "Checking Account", 2500),
      Account(4, "Investment Account", 10000),
      Account(5, "Emergency Fund", 3000),
      Account(6, "Travel Savings", 1500)
    ], 6)
  {
    var skipped := AccountTable([Account(1, "Sanna", 5000)], 2);
    var rest := InitialAccounts[1..];
    RestFresh(skipped);
    SeedFresh(skipped, rest);
    var rows := Seed(skipped, rest).rows;
    forall k | 1 <= k < 5
      ensures rows[k] == Account(k + 2, InitialAccounts[k].name, InitialAccounts[k].availableCash)
    {
      assert rows[|skipped.rows| + (k - 1)] == rows[k];
      assert rest[k - 1] == InitialAccounts[k];
    }
    assert rows[0] == rows[..1][0];
  }

  /** The first seed names a taken account: no row is stored, id 2 is spent. */
  lemma SannaSkipped()
    ensures Seed(AccountTable([Account(1, "Sanna", 5000)], 1), InitialAccounts[..1])
      == AccountTable([Account(1, "Sanna", 5000)], 2)
  {
    var t := AccountTable([Account(1, "Sanna", 5000)], 1);
    assert t.rows[0].name == "Sanna";
    assert InitialAccounts[..1][..0] == [];
  }

  /** The four seeds after Sanna are distinct and none of them is taken. */
  lemma RestFresh(t: AccountTable)
    requires t.rows == [Account(1, "Sanna", 5000)]
    ensures SeedNamesDistinct(InitialAccounts[1..])
    ensures forall k :: 0 <= k < |InitialAccounts[1..]| ==> !HasName(t.rows, InitialAccounts[1..][k].name)
  {
    InitialNamesDistinct();
    var rest := InitialAccounts[1..];
    forall k | 0 <= k < |rest|
      ensures !HasName(t.rows, rest[k].name)
    {
      assert rest[k].name[0] != 'S';
    }
  }

  lemma InitialNamesDistinct()
    ensures SeedNamesDistinct(InitialAccounts)
  {
    assert InitialAccounts[3].name[0] != InitialAccounts[4].name[0];
  }

  /**
   * The open database handle. `initialized` stands for the marker file
   * db_initialized.flag, which lives beside the database file.
   */
  class Database {
    var accounts: AccountTable
    var transactions: TransactionTable
    var initialized: bool

    function State(): Ledger
      reads this
    {
      Ledger(accounts, transactions)
    }

    ghost predicate Valid()
      reads this
    {
      LedgerValid(State())
    }

    /** A database file opened for the first time: empty tables, no marker. */
    constructor ()
      ensures Valid()
      ensures State() == EmptyLedger && !initialized
    {
      accounts := AccountTable([], 0);
      transactions := TransactionTable([], 0);
      initialized := false;
    }

    /** One INSERT OR IGNORE into `accounts`; returns the number of rows it added. */
    method InsertAccount(name: string, availableCash: int) returns (changes: nat)
      requires Valid()
      modifies this
      ensures Valid()
      ensures accounts == InsertOrIgnore(old(accounts), name, availableCash)
      ensures changes == if HasName(old(accounts).rows, name) then 0 else 1
      ensures transactions == old(transactions) && initialized == old(initialized)
    {
      changes := if HasName(accounts.rows, name) then 0 else 1;
      InsertOrIgnoreValid(accounts, name, availableCash);
      accounts := InsertOrIgnore(accounts, name, availableCash);
    }

    /** insertInitialAccounts: one INSERT OR IGNORE per seed, in list order. */
    method InsertInitialAccounts()
      requires Valid()
      modifies this
      ensures Valid()
      ensures accounts == Seed(old(accounts), InitialAccounts)
      ensures transactions == old(transactions) && initialized == old(initialized)
    {
      for i := 0 to |InitialAccounts|
        invariant Valid()
        invariant accounts == Seed(old(accounts), InitialAccounts[..i])
        invariant transactions == old(transactions) && initialized == old(initialized)
      {
        var account := InitialAccounts[i];
        var changes := InsertAccount(account.name, account.availableCash);
        assert InitialAccounts[..i + 1][..i] == InitialAccounts[..i];
      }
      assert InitialAccounts[..|InitialAccounts|] == InitialAccounts;
    }

    /**
     * Start-up: when the marker is absent, create the tables (they already
     * have the row shape here), seed them and write the marker; otherwise
     * skip. A second Init therefore seeds nothing.
     */
    method Init()
      requires Valid()
      modifies this
      ensures Valid() && initialized
      ensures accounts == if old(initialized) then old(accounts) else Seed(old(accounts), InitialAccounts)
      ensures transactions == old(transactions)
    {
      if !initialized {
        InsertInitialAccounts();
        initialized := true;
      }
    }
  }
}
