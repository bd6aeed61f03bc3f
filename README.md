# Bank ledger backend, modelled in Dafny

This project models the ledger of a small bank backend written in TypeScript
on Express and SQLite. The ledger has three parts:

- **Store (`db.dfy`, module `Db`).** There are two tables, `accounts` and
  `transactions`. Each holds its rows in rowid order plus its AUTOINCREMENT
  counter, which is the table's entry in `sqlite_sequence`. Every insert
  draws the counter plus one as its id and advances the counter. This
  happens even when `OR IGNORE` then drops the row because the name is
  taken. At first start-up the five fixed accounts of the seed list
  `InitialAccounts` (`db.ts:45-51`) are inserted with `INSERT OR IGNORE`
  against the UNIQUE name column. Start-up is guarded
  by a marker file, which is modelled as the boolean field `initialized` of
  the class `Database`.
- **Repositories (`models.dfy`, module `Models`).** `getAll` and `getById` are
  read-only queries, so they are functions of a table. `updateBalance` and
  `create` write to the store, so they are methods that modify the open
  `Database`.
- **Transfer handler (`server.dfy`, module `Server`).** This is
  `POST /api/transactions`. `TransferSpec` is a pure function of the store
  giving the handler's answer and the store it leaves. The answer is the
  datatype `Outcome`, one of `InvalidAccount`, `InsufficientFunds`,
  `Success(tx)` or `NotRetrievable`: the two 400 answers, the 200 answer and
  the 500 answer of `server.ts:28-48`.
  The method `Transfer` runs the handler's steps against the `Database` in
  the source's order and is proved to agree with `TransferSpec`. The lemmas
  about `TransferSpec` state what the handler promises. The `GET
  /api/accounts` handler only returns `getAll`, so `GetAll` models it.

Balances, amounts, ids and timestamps are mathematical integers. `Date.now()`
is the parameter `now`.

## Model

| member | source | states |
|---|---|---|
| Db.IndexOf | bank/server/src/models.ts:27 | Lookup by key finds a position exactly when the key occurs, and the position found is the first row carrying that key |
| Db.IndexOfAscending | bank/server/src/db.ts:26 | With strictly increasing primary keys, the lookup of a key finds the one row that carries it |
| Db.InsertOrIgnore | bank/server/src/db.ts:54-57 | The counter always advances by one. A name that is already present leaves the rows exactly as they were, including the existing balance. Otherwise one row is appended under the drawn id, counter+1, and the old rows are kept |
| Db.InsertOrIgnoreValid | bank/server/src/db.ts:25-29 | After an insert-or-ignore the name is present. A valid table stays valid: names pairwise distinct, ids strictly increasing and within 1..counter |
| Db.Seed | bank/server/src/db.ts:53-58 | Running the insert loop over a seed list advances the counter by one per seed, and adds at most one row per seed |
| Db.SeedKeepsRows | bank/server/src/db.ts:53-58 | Seeding only appends: the existing rows are a prefix of the result, and table validity is preserved, so names stay distinct and ids stay increasing |
| Db.SeedCoversNames | bank/server/src/db.ts:45-58 | After seeding, every name in the seed list is present in the table |
| Db.SeedNoOp | bank/server/src/db.ts:53-58 | Seeding a table that already holds every seed name stores no row; the rows are unchanged and the counter moves on by the number of seeds |
| Db.SeedIdempotent | bank/server/src/db.ts:53-58 | Running the seeding loop a second time on its own result leaves the rows unchanged and moves the counter on by the number of seeds |
| Db.SeedConcat | bank/server/src/db.ts:53-58 | Seeding with one list and then with another is the same as seeding with the two lists joined, in order |
| Db.SeedFreshStep | bank/server/src/db.ts:54-57 | Inserting a name that is in neither the table nor the seeds already added appends it as the next row, with the next consecutive id |
| Db.SeedFresh | bank/server/src/db.ts:53-58 | With distinct seed names none of which is taken, seeding appends one row per seed in list order, with consecutive ids counter+1, counter+2 and so on (distinct and increasing), and the counter advances by the number of seeds |
| Db.InitialSeedOnEmpty | bank/server/src/db.ts:45-58 | Seeding the empty table yields exactly the five listed accounts in list order with ids 1 to 5: Sanna 5000, Checking Account 2500, Investment Account 10000, Emergency Fund 3000, Travel Savings 1500 |
| Db.SannaSkipped | bank/server/src/db.ts:54-57 | Inserting Sanna into a table that already holds Sanna (id 1, counter 1) stores no row and spends id 2 |
| Db.SeedAfterTakenName | bank/server/src/db.ts:53-58 | Seeding a table that holds only Sanna (id 1, counter 1) keeps Sanna and gives the other four accounts ids 3 to 6, in list order, with counter 6 |
| Db.SeededAccountsValid | bank/server/src/db.ts:45-58 | The seeded table has distinct names and strictly increasing ids within 1..5 |
| Db.Database.constructor | bank/server/src/db.ts:24-41 | A newly opened store has two empty tables with counters at zero and no marker |
| Db.Database.InsertAccount | bank/server/src/db.ts:54-57 | One INSERT OR IGNORE: the accounts table becomes its insert-or-ignore image, so the counter advances in both cases. The reported change count is 0 for a taken name and 1 otherwise, and transactions and marker are unchanged |
| Db.Database.InsertInitialAccounts | bank/server/src/db.ts:44-59 | After the loop, the accounts table is the old table seeded with the five entries in order, counting a drawn id for every insert, ignored ones included. The store stays valid and transactions are unchanged |
| Db.Database.Init | bank/server/src/db.ts:67-74 | Init seeds the accounts only when the marker is unset, always sets the marker, keeps the store valid and leaves the transactions unchanged, so a second Init leaves the accounts as they were |
| Models.GetAll | bank/server/src/models.ts:4-7 | Returns every account row in rowid order. On a valid table the rows have increasing ids and distinct names |
| Models.Credit | bank/server/src/models.ts:10 | The row whose id matches gets old balance + amount, with no lower bound. Every other balance, every id, every name and the row count are unchanged |
| Models.CreditAbsent | bank/server/src/models.ts:10-11 | An update whose id matches no row leaves the rows as they were |
| Models.CountId | bank/server/src/models.ts:11 | The number of rows an UPDATE by id reports is at most the row count, and is zero exactly when no row carries the id |
| Models.CountIdUnique | bank/server/src/models.ts:10-11 | Because id is the primary key, the number of rows an UPDATE ... WHERE id = ? changes is 1 when the id exists and 0 when it does not |
| Models.CreditTotal | bank/server/src/models.ts:10 | An update moves the sum of all balances by exactly the amount when the id exists, and not at all when it does not |
| Models.UpdateBalance | bank/server/src/models.ts:8-12 | The accounts become the credited rows (counter unchanged). The returned change count is 1 when the id exists and 0 otherwise. Transactions and marker are unchanged, and the store stays valid |
| Models.Appended | bank/server/src/models.ts:18-22 | One row is appended after the old rows, with id counter+1, registeredTime = executedTime = now, success = 1, and the request's amount and account ids. A valid table stays valid, and the new id exceeds every earlier id |
| Models.CreateTransaction | bank/server/src/models.ts:16-24 | The transactions table becomes its appended image. The returned id is the new row's id and differs from every earlier transaction id. Accounts and marker are unchanged |
| Models.GetById | bank/server/src/models.ts:25-28 | Yields a row exactly when the id is a key of the table, and the row yielded carries that id. For an unknown id it yields None (`undefined`) |
| Models.GetByIdAfterCreate | bank/server/src/models.ts:16-28 | Reading back the id that create just returned yields exactly the row that create inserted |
| Server.Find | bank/server/src/server.ts:25-26 | Finds an account exactly when the id occurs in the snapshot, and the account found carries that id |
| Server.FindFirst | bank/server/src/server.ts:25-26 | The account found is the first one in snapshot order that carries the id |
| Server.FindAscending | bank/server/src/server.ts:25-26 | With unique ids, the account found for an id is the one row that carries it |
| Server.Validate | bank/server/src/server.ts:24-34 | The checks reject only with InvalidAccount or InsufficientFunds, and answer InvalidAccount exactly when the source or the destination id is missing from the snapshot |
| Server.Settled | bank/server/src/server.ts:36-38 | Debit, credit and insert keep every account id, name and the account counter, and append exactly one transaction after the existing ones |
| Server.TransferSpec | bank/server/src/server.ts:24-48 | A rejection (InvalidAccount or InsufficientFunds) leaves the store unchanged, and a Success answer carries a transaction that is stored, under the id the insert drew |
| Server.ValidateDecides | bank/server/src/server.ts:28-34 | Validation answers InvalidAccount iff either id is missing. It answers InsufficientFunds iff both are present and the source balance is strictly below the amount. It lets the request through iff both are present and the balance is at least the amount |
| Server.TransferSpecCases | bank/server/src/server.ts:24-48 | A rejected request is answered with its rejection and leaves the store unchanged. An accepted request debits, credits and appends, and is answered with Success carrying the appended record |
| Server.Transfer | bank/server/src/server.ts:20-53 | Running the handler's steps against the database yields the answer and the new store that TransferSpec gives for the old store, and the store stays valid |
| Server.UnknownAccountRejected | bank/server/src/server.ts:24-30 | The answer is InvalidAccount iff the source or the destination id is absent, whatever the amount (ids are checked before funds). That answer leaves both tables unchanged |
| Server.InsufficientFundsRejected | bank/server/src/server.ts:32-34 | The answer is InsufficientFunds iff both ids exist and the source balance is strictly below the amount. That answer leaves both tables unchanged |
| Server.TransferSucceeds | bank/server/src/server.ts:28-45 | The transfer succeeds iff both ids exist and the source balance is at least the amount. An amount equal to the balance is accepted, and there is no sign check. The "created but could not be retrieved" answer never occurs |
| Server.SuccessMovesAmount | bank/server/src/server.ts:36-37 | On success the source loses exactly the amount and the destination gains exactly the amount (they cancel when they are the same account). All other balances, all ids, all names and the account counter are unchanged |
| Server.MoveConservesTotal | bank/server/src/server.ts:36-37 | A debit then a credit of the same amount on two existing ids leaves the sum of balances unchanged, also when source and destination coincide |
| Server.TransferConservesTotal | bank/server/src/server.ts:28-37 | For every answer, the sum of all balances after the handler equals the sum before |
| Server.SuccessTouchesOneRowEach | bank/server/src/server.ts:24-37 | On success, each of the two balance updates changes exactly one row |
| Server.SuccessRecordsTransaction | bank/server/src/server.ts:38-45 | On success exactly one transaction is appended and returned. It carries the request's amount and ids, time now, success 1, and an id no earlier transaction has. A rejection appends nothing |
| Server.TransferPreservesValid | bank/server/src/server.ts:24-48 | Every answer leaves a store with distinct names and increasing ids within the counters |
| Server.NonNegativeBalancesKept | bank/server/src/server.ts:32-37 | With non-negative balances and a non-negative amount, every balance stays non-negative: the funds check protects the source |
| Server.NegativeAmountOverdraws | bank/server/src/server.ts:32 | With no sign check, a negative amount is accepted and can take the destination below zero |
| Server.SeededValidates | bank/server/src/server.ts:24-34 | On the seeded table, a transfer of 1000 from account 1 to account 2 passes both checks |
| Server.SeededSettled | bank/server/src/server.ts:36-37 | On the seeded table, that transfer leaves Sanna at 4000 and Checking Account at 3500, and the other three accounts unchanged |
| Server.SeededTransfer | bank/server/src/server.ts:24-45 | On the seeded store that transfer succeeds, is recorded as transaction 1, and leaves the balances above |
| Server.StartupScenario | bank/server/src/db.ts:67-74 | A fresh database initialised twice and then given that transfer answers Success with transaction 1, and lists the five accounts with the moved balances |

## Left out

- Express, CORS, JSON body parsing, port binding and `console` logging. HTTP status codes are reduced to the four `Outcome` constructors.
- Requests whose fields are not numbers. The body is modelled as three integers.
- The SQLite driver and SQL parsing. Each statement is written as an operation on the table value it names.
- The file I/O of the marker (`fs.existsSync` / `writeFileSync`). It is the field `Database.initialized`.
- `createTables` beyond the row shape. A newly opened store simply has two empty tables. The foreign keys on `transactions` are not enforced, as SQLite does not enforce them by default.
- IEEE double semantics of the `REAL` columns. Balances and amounts are integers, which is what makes conservation of the total exact.
- `Date.now()` is the parameter `now`, not a clock.
- Storage errors and the `catch` that answers 500 with the error message (`server.ts:49-51`), including failure between the two balance updates. Storage calls cannot fail in the model.
- Concurrency: the model is single-threaded. It does not cover the race between the snapshot check and the updates of two concurrent transfers.
- The `|| 0` fallbacks on `changes` and `lastID`. In the model an update reports 0 or 1, and an insert always yields an id of at least 1.
- Fractional amounts. Balances and amounts are whole numbers, but the client sends `parseFloat` of a field with step 0.01. Amounts such as 12.34 are outside the model.
- The React client `src/App.tsx` is not part of this model.
