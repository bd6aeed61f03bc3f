/**
 * The two repositories of the bank backend (bank/server/src/models.ts).
 * Each SQL statement becomes an operation on the table it names: the two
 * queries are functions of a table value, the two statements that write
 * are methods on the open Database.
 */
module Models {
  import opened Db

  /** Account.getAll: `SELECT * FROM accounts`, every row in rowid order. */
  function GetAll(accounts: AccountTable): (r: seq<Account>)
    ensures r == accounts.rows
    ensures AccountTableValid(accounts) ==> Ascending(AccountIds(r)) && NamesDistinct(r)
  {
    accounts.rows
  }

  /** The rows after `UPDATE accounts SET availableCash = availableCash + ? WHERE id = ?`. */
  function Credit(rows: seq<Account>, id: int, amount: int): (r: seq<Account>)
    ensures |r| == |rows|
    ensures AccountIds(r) == AccountIds(rows)
    ensures forall i :: 0 <= i < |r| ==> r[i].name == rows[i].name
    ensures forall i :: 0 <= i < |r| ==>
      r[i].availableCash == rows[i].availableCash + (if rows[i].id == id then amount else 0)
  {
    seq(|rows|, i requires 0 <= i < |rows| =>
      if rows[i].id == id then rows[i].(availableCash := rows[i].availableCash + amount) else rows[i])
  }

  /** An UPDATE whose key matches no row leaves every row as it was. */
  lemma CreditAbsent(rows: seq<Account>, id: int, amount: int)
    requires id !in AccountIds(rows)
    ensures Credit(rows, id, amount) == rows
  {
    var r := Credit(rows, id, amount);
    forall i | 0 <= i < |rows|
      ensures r[i] == rows[i]
    {
      assert rows[i].id == AccountIds(rows)[i];
    }
  }

  /** The number of rows whose key is `id`: what `result.changes` reports for the UPDATE. */
  function CountId(ids: seq<int>, id: int): (r: nat)
    ensures r <= |ids|
    ensures r == 0 <==> id !in ids
  {
    if ids == [] then 0 else (if ids[0] == id then 1 else 0) + CountId(ids[1..], id)
  }

  /** The sum of all balances. */
  function Total(rows: seq<Account>): int
  {
    if rows == [] then 0 else rows[0].availableCash + Total(rows[1..])
  }

  /** id is the primary key, so an UPDATE ... WHERE id = ? changes exactly
      one row when the id exists and none when it does not. */
  lemma {:induction false} CountIdUnique(ids: seq<int>, id: int)
    requires Ascending(ids)
    ensures CountId(ids, id) == if id in ids then 1 else 0
    decreases |ids|
  {
    if ids != [] {
      CountIdUnique(ids[1..], id);
      if ids[0] == id {
        assert forall k :: 0 <= k < |ids[1..]| ==> ids[1..][k] == ids[k + 1] > ids[0];
      }
    }
  }

  /** A balance update moves the table total by exactly `amount` when the
      key exists, and leaves it alone when it does not. */
  lemma {:induction false} CreditTotal(rows: seq<Account>, id: int, amount: int)
    requires Ascending(AccountIds(rows))
    ensures Total(Credit(rows, id, amount)) == Total(rows) + (if id in AccountIds(rows) then amount else 0)
    decreases |rows|
  {
    if rows != [] {
      var tail := rows[1..];
      assert AccountIds(tail) == AccountIds(rows)[1..];
      assert Credit(rows, id, amount)[1..] == Credit(tail, id, amount);
      CreditTotal(tail, id, amount);
      assert AccountIds(rows) == [rows[0].id] + AccountIds(tail);
      if rows[0].id == id {
        assert id !in AccountIds(tail);
      }
    }
  }

  /** Account.updateBalance: add `amount` to the balance of the row whose id
      is `id` and report how many rows changed. There is no lower bound: the
      new balance is old + amount whatever its sign. */
  method UpdateBalance(db: Database, id: int, amount: int) returns (changes: nat)
    requires db.Valid()
    modifies db
    ensures db.Valid()
    ensures db.accounts == old(db.accounts).(rows := Credit(old(db.accounts.rows), id, amount))
    ensures changes == if id in AccountIds(old(db.accounts.rows)) then 1 else 0
    ensures db.transactions == old(db.transactions) && db.initialized == old(db.initialized)
  {
    CountIdUnique(AccountIds(db.accounts.rows), id);
    changes := CountId(AccountIds(db.accounts.rows), id);
    var updated := Credit(db.accounts.rows, id, amount);
    assert NamesDistinct(updated);
    db.accounts := db.accounts.(rows := updated);
  }

  /** The table after the INSERT of Transaction.create at time `now`: one row
      appended under the next AUTOINCREMENT id, recorded as successful. */
  function Appended(t: TransactionTable, now: int, sourceAccountId: int, destinationAccountId: int,
                    amount: int): (r: TransactionTable)
    ensures |r.rows| == |t.rows| + 1 && r.rows[..|t.rows|] == t.rows
    ensures r.rows[|t.rows|] == Transaction(r.lastId, now, now, 1, amount, sourceAccountId, destinationAccountId)
    ensures TransactionTableValid(t) ==>
      TransactionTableValid(r) && forall i :: 0 <= i < |t.rows| ==> t.rows[i].id < r.lastId
  {
    var id := t.lastId + 1;
    var r := TransactionTable(t.rows + [Transaction(id, now, now, 1, amount, sourceAccountId, destinationAccountId)], id);
    assert r.rows[..|t.rows|] == t.rows;
    assert TransactionIds(r.rows) == TransactionIds(t.rows) + [id];
    assert forall i :: 0 <= i < |t.rows| ==> t.rows[i].id == TransactionIds(t.rows)[i];
    r
  }

  /** Transaction.create: insert the row and return its id (`result.lastID`). */
  method CreateTransaction(db: Database, sourceAccountId: int, destinationAccountId: int, amount: int,
                           now: int) returns (id: int)
    requires db.Valid()
    modifies db
    ensures db.Valid()
    ensures db.transactions == Appended(old(db.transactions), now, sourceAccountId, destinationAccountId, amount)
    ensures id == db.transactions.lastId && id !in TransactionIds(old(db.transactions.rows))
    ensures db.accounts == old(db.accounts) && db.initialized == old(db.initialized)
  {
    db.transactions := Appended(db.transactions, now, sourceAccountId, destinationAccountId, amount);
    id := db.transactions.lastId;
  }

  /** Transaction.getById: `SELECT * FROM transactions WHERE id = ?`, the row
      with that key, or None (`undefined`) when there is none. */
  function GetById(transactions: TransactionTable, id: int): (r: Option<Transaction>)
    ensures r.Some? <==> id in TransactionIds(transactions.rows)
    ensures r.Some? ==> r.value in transactions.rows && r.value.id == id
  {
    match IndexOf(TransactionIds(transactions.rows), id)
    case None => None
    case Some(k) => Some(transactions.rows[k])
  }

  /** Reading back the id that create just returned yields exactly the row
      that create inserted. */
  lemma GetByIdAfterCreate(t: TransactionTable, now: int, sourceAccountId: int, destinationAccountId: int,
                           amount: int)
    requires TransactionTableValid(t)
    ensures var after := Appended(t, now, sourceAccountId, destinationAccountId, amount);
      GetById(after, after.lastId)
        == Some(Transaction(after.lastId, now, now, 1, amount, sourceAccountId, destinationAccountId))
  {
    var after := Appended(t, now, sourceAccountId, destinationAccountId, amount);
    var ids := TransactionIds(after.rows);
    assert ids[|t.rows|] == after.lastId;
    IndexOfAscending(ids, |t.rows|);
  }
}
