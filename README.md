# Expense tracker store, modelled in Dafny

The expense tracker is a small Flask application (`app.py`). It keeps three
SQLite tables:

- users, with unique user names and passwords kept verbatim;
- expenses, each owned by one user;
- per-category spending limits, at most one per (user, category).

Its routes read and write those tables:

- register and log in;
- list and total one's expenses under optional category and date filters;
- add an expense, refused when it would take the category over its limit;
- edit an expense: owner only, with the same limit check, leaving the edited row out of the total;
- delete an expense, owner only;
- set a category limit (update or insert);
- report totals by category and by month;
- export one month as comma-separated text.

This project models that store as sequences of rows and proves what the routes
promise about them.

- `text.dfy` (`Text`) covers text values as SQLite handles them here:
  - the BINARY collation that `date>=?`, `date<=?` and `ORDER BY` use (code-point lexicographic order, proved a total order);
  - calendar dates `YYYY-MM-DD` and their `strftime('%Y-%m', …)` month;
  - the separator split a CSV reader applies.
- `tables.dfy` (`Tables`) holds the row types and the facts the database keeps:
  - AUTOINCREMENT ids start at 1, increase and are never reused;
  - user names are unique;
  - there is one limit per pair;
  - the single-row lookups, each `fetchone()` returning the first match.
- `queries.dfy` (`Queries`) holds the queries as what they select:
  - conjunctive WHERE clauses, `SUM` with NULL read as 0, and `ORDER BY date`;
  - the limit check;
  - the DELETE, UPDATE and limit upsert the routes issue;
  - lemmas on how each write changes totals, limits and other users' rows.
- `summaries.dfy` (`Summaries`) holds the category and monthly GROUP BY reports and the month export with its CSV text.
- `store.dfy` (`Store`) holds the class `ExpenseStore`:
  - its fields are the three tables and their next ids;
  - its methods are the write routes and the filtered listing, each built step by step like the route and proved against the query functions above.

Amounts are exact `real` numbers. The signed-in user's id is a parameter of
each operation. A rejected write leaves the whole store unchanged.

Setting a limit can put it below what was already spent, so "every limit holds"
is not an invariant of the store. What the model proves instead is stated
limit row by limit row, so one limit already exceeded says nothing about the
others:

- add never breaks a limit that held;
- edit and delete never break one either, provided the expense they change or
  remove did not have a negative amount. The routes accept negative amounts, and
  taking one away raises a total.

## Model

| member | source | states |
|---|---|---|
| Text.TextLeTotal | app.py:67-76 | any two dates compare one way or the other under TEXT ordering |
| Text.TextLeAntisymmetric | app.py:67-76 | two dates each at most the other are equal |
| Text.TextLeTransitive | app.py:67-76 | TEXT ordering of dates is transitive, so a sorted listing is consistently sorted |
| Text.TextLtTransitive | app.py:258-264 | a key strictly below another stays strictly below anything that one is below |
| Text.TextLe | app.py:67-76 | the order `date>=?`, `date<=?` and `ORDER BY date` compare by: code-point lexicographic order, SQLite's BINARY collation; its order laws are the rows below |
| Text.MonthOf | app.py:259 | the `'%Y-%m'` month of a calendar date is 7 characters of text that, read as the first day of its month, has the date's own year and month |
| Text.SameMonthBucket | app.py:258-262 | two calendar dates fall in the same month group exactly when their years and months are equal |
| Text.SplitAtSeparator | app.py:283-286 | text without the separator followed by the separator is read back as exactly one field |
| Tables.Login | app.py:106-112 | login finds an account exactly when some row matches both name and password, and yields such a row's id |
| Tables.LoginFindsAccount | app.py:106-116 | with unique names, logging in as an existing user succeeds exactly when the password is that user's, giving that user's id |
| Tables.LoginAfterRegister | app.py:89-112 | an account just inserted under a free name under the next id keeps the users table well formed (ids increasing, names unique) and logs in with its password and gets the new id |
| Tables.LimitFor | app.py:137-140 | the ceiling lookup is absent exactly when no limit row has that user and category, and otherwise is such a row's amount |
| Tables.LimitForRow | app.py:190-193 | with one limit per pair, the lookup returns that pair's own ceiling wherever its row sits |
| Tables.FindOwned | app.py:175-178 | the ownership lookup finds a row exactly when one with that id belongs to the caller, and returns such a row |
| Queries.Where | app.py:59-74 | the rows a conjunctive WHERE clause selects, in table order; what it selects is stated by Queries.WhereCount, Queries.WhereNested and Queries.OwnRowsDecide |
| Queries.WhereCount | app.py:59-74 | a WHERE clause keeps each row that meets every conjunct, as often as the table holds it, and drops every other row |
| Queries.WhereNested | app.py:63-74 | narrowing a selection by more conjuncts is selecting by all of them at once |
| Queries.OwnRowsDecide | app.py:59-61 | a query starting with `user_id=?` depends only on the caller's rows |
| Queries.Sum | app.py:80 | `SUM(amount)` over selected rows with the NULL of an empty selection read as 0; its laws are Queries.SumConcat and Queries.SumPermutation |
| Queries.SumConcat | app.py:60 | the sum over two blocks of rows is the sum of their sums |
| Queries.SumPermutation | app.py:76-80 | a sum does not depend on the order of the rows, so the unordered total query sums the ordered listing |
| Queries.Insert | app.py:76 | inserting a row into a date-ordered sequence keeps it date-ordered and adds exactly that row |
| Queries.SortByDate | app.py:76 | `ORDER BY date` yields a date-ordered permutation of the selected rows |
| Queries.Selected | app.py:63-74 | a row is listed when it is the caller's and meets each filter given non-empty: category equal, date at or after `from_date`, date at or before `to_date` (Queries.Given: an absent or empty filter imposes nothing); Store.ExpenseStore.Home states that the listing is exactly these rows |
| Queries.CategoryTotal | app.py:143-146 | what the user has spent in the category, leaving out one id when the edit's `AND id!=?` applies (app.py:196-199); its behaviour under writes is stated by Queries.TotalWithoutRow, Queries.EditMovesAmount and Queries.DeleteLowersTotals |
| Queries.OverLimit | app.py:142-148 | the refusal of an add or edit: a ceiling exists for the pair and total plus the new amount is strictly above it (the same test at app.py:195-201); Store.ExpenseStore.Add, Store.ExpenseStore.Edit and Store.LimitScenario state its outcome, Queries.AddKeepsWithinLimits and Queries.ResaveNeverTrips what it guarantees |
| Queries.TotalWithoutRow | app.py:196-199 | leaving one id out of a category sum takes away exactly that row's amount when the row was counted |
| Queries.AddKeepsWithinLimits | app.py:142-162 | an add that passes the limit check leaves every limit row that held still holding, whatever the other limit rows do |
| Queries.ResaveNeverTrips | app.py:195-201 | re-saving a row with its own amount and category never trips the limit of its own category when that one limit holds, whatever other limits do |
| Queries.Deleted | app.py:230-233 | a delete for an id the caller does not own changes nothing |
| Queries.DeletedCount | app.py:230-233 | a delete removes every copy of the caller's row with that id and keeps every other row with its multiplicity |
| Queries.DeleteIdempotent | app.py:230-233 | deleting twice is deleting once |
| Queries.DeleteRemovesOne | app.py:230-233 | with distinct ids, deleting an owned row removes exactly that row and keeps the order of the rest |
| Queries.DeletedKeepsTable | app.py:230-233 | what a delete leaves still has increasing ids below the next id |
| Queries.DeleteIsolated | app.py:230-233 | a delete leaves every other user's rows exactly as they were |
| Queries.DeleteLowersTotals | app.py:230-233 | deleting a row of non-negative amount raises no total |
| Queries.DeleteKeepsWithinLimits | app.py:230-233 | deleting a row of non-negative amount keeps each limit row that held, one by one |
| Queries.Revised | app.py:206-216 | an update keeps the number of rows and replaces exactly the caller's rows with that id by the new values, keeping id and owner |
| Queries.EditIsolated | app.py:206-216 | an update leaves every other user's rows exactly as they were |
| Queries.RevisedKeepsTable | app.py:206-216 | an update changes no id, so the table keeps its id invariant |
| Queries.WhereSkipsId | app.py:197 | two tables differing only in the rows of one id agree on every query that excludes that id |
| Queries.EditMovesAmount | app.py:196-216 | an edit moves exactly the old amount out of, and the new amount into, every sum selected by the row's conditions |
| Queries.EditKeepsWithinLimits | app.py:190-216 | an edit that passes the limit check keeps each limit row that held, one by one, when the edited row's old amount was non-negative |
| Queries.AcceptedEditKeepsLimits | app.py:174-216 | the same, per limit row, for the caller's owned row named by id, as the route finds it |
| Queries.Overwritten | app.py:311-315 | overwriting a pair's ceiling changes only that pair's amounts, keeps every row's id, user and category, and leaves other pairs' lookups alone |
| Queries.LimitForAppend | app.py:317-320 | appending a limit row changes only the lookup of its own pair, and only when that pair had no ceiling |
| Queries.Upserted | app.py:306-320 | after setting a limit the pair's ceiling is the new amount, every other pair keeps its ceiling, and one row per pair is preserved |
| Queries.UpsertIdempotent | app.py:306-320 | setting the same limit twice is setting it once |
| Queries.UpsertedKeepsTable | app.py:306-320 | the upsert keeps ids in range and increasing and one row per pair, advancing the id counter only on insert |
| Summaries.GroupTotals | app.py:244-247 | `GROUP BY` a row key (category, or the month at app.py:258-264): one group per key with the sum of its rows; stated by Summaries.GroupTotalsOrder and Summaries.GroupTotalsSum |
| Summaries.GroupTotalsOrder | app.py:258-264 | grouping yields strictly descending, hence distinct, keys: one for each key the rows carry |
| Summaries.GroupTotalsSum | app.py:244-247 | each group's value is the sum of the amounts of exactly the rows with that key |
| Summaries.CategorySummary | app.py:244-247 | one entry per category the user has spent in and no other, with distinct keys, each holding the user's total in that category |
| Summaries.MonthlySummary | app.py:258-264 | one entry per month the user has spent in, newest first, each holding the user's total for that month |
| Summaries.ExportRows | app.py:275-280 | the export selects exactly the user's rows dated in the month, each with its multiplicity, in ascending date order |
| Summaries.MonthTotalMatchesExport | app.py:258-280 | a month's figure in the monthly report equals the sum of the rows the export of that month lists |
| Summaries.ExportMonth | app.py:283-286 | the export text starts with the line `Date,Amount,Category,Description` |
| Summaries.CsvRecord | app.py:286 | one exported line's text: date, amount text, category and description joined by commas without escaping; stated by Summaries.RecordFields and Summaries.CommaInDescriptionAddsField |
| Summaries.CsvLines | app.py:285-286 | the `generate` loop: one record and a newline per exported row, in export order; stated by Summaries.LinesSplit and Summaries.ExportLines |
| Summaries.LinesSplit | app.py:285-286 | the record lines read back line by line as one record per row, in row order |
| Summaries.ExportLines | app.py:283-286 | read line by line, the export is the header and then one record per exported row, in export order, when no field of a row dated in that month holds a line break |
| Summaries.RecordFields | app.py:286 | a record whose fields contain no comma reads back as exactly its date, amount, category and description |
| Summaries.CommaInDescriptionAddsField | app.py:286 | fields are not escaped: a comma in the description makes the record read back as more than four fields |
| Store.ExpenseStore.constructor | app.py:16-41 | a new database has empty tables whose ids will start at 1 |
| Store.ExpenseStore.Register | app.py:85-99 | a taken name is refused with the store unchanged; otherwise exactly one user row is added under the next id and that account can log in |
| Store.ExpenseStore.Add | app.py:125-165 | refused with the category's ceiling exactly when a limit exists and total plus amount is strictly above it, with the store unchanged; otherwise exactly the new row is appended under the next id; each limit row that held before still holds |
| Store.ExpenseStore.Edit | app.py:169-219 | an unowned id is refused before any limit check; the limit check leaves the edited row out; a refusal changes nothing; success is the update of that row alone; each limit row that held still holds when the row's old amount was non-negative |
| Store.ExpenseStore.CheckEdit | app.py:174-204 | the reads before the update: NotAllowed exactly when the caller owns no row with that id; for an owned row, a refusal naming the category and ceiling exactly when the limit check without that row fails, otherwise Done |
| Store.ExpenseStore.Delete | app.py:224-236 | the caller's row with that id is removed and nothing else changes; an unowned id changes nothing; each limit row that held still holds when the removed row's amount was non-negative |
| Store.ExpenseStore.SetLimit | app.py:294-324 | the pair's ceiling becomes the new amount, overwriting or inserting under the next id; other pairs keep theirs; the store keeps one limit per pair |
| Store.ExpenseStore.Home | app.py:49-83 | the listing holds exactly the caller's rows meeting every given filter, newest first, and the total is their sum (0 when none) |
| Store.AllHoldAppend | app.py:63-74 | appending a conjunct to the WHERE clause narrows it by exactly that conjunct |
| Store.LimitScenario | app.py:142-165 | with a ceiling of 100 and 80 spent, adding 25 is refused naming the ceiling, while adding 20 (exactly at the ceiling) is accepted |
| Store.OneRowTotal | app.py:143-146 | the category total over a single row of the user's in that category is its amount |

## Left out

- Flask is outside the model: routing, redirects, templates, the session cookie, `logout` (which only clears the session), the `Response` headers of the export, and the GET branches that only render forms. The signed-in user's id is a parameter. `Status.NotAllowed` stands for the HTTP 403 answer.
- The SQLite connection and table creation (`get_db_connection`, `setup_database`) are left out. The store's constructor stands for a freshly created database.
- db_update.py is not part of this model. It is a one-off schema migration that only performs database I/O.
- SQL text building is left out. The listing's clause is modelled as a sequence of conjuncts that grows like the query string does.
- Floating point is left out. Amounts are exact reals, so `float()` parsing of form fields and its rounding are not modelled, nor is the error a non-numeric field raises. A missing form field, which Flask answers with 400, is not modelled either.
- The export's amount text comes from Python's float formatting. It is a parameter (`render`) of the export functions.
- The race between the limit check and the write is not modelled. Two concurrent requests can both pass the check, but a sequential model cannot show that.
- Summaries.MonthlySummary: requires every date of the user's rows to be a `YYYY-MM-DD` calendar date. The NULL month group that SQLite forms for dates it cannot read is not modelled.
- Summaries.ExportRows: treats a row whose date is not a `YYYY-MM-DD` calendar date as having no month. SQLite's date parser would give a month to some such dates. It reads a date with a time part. It also accepts any day from 01 to 31 and normalises it, so `2024-02-30` falls in `2024-03`; `IsoDate` rejects that date.
- Summaries.CategorySummary: the query has no ORDER BY, so SQLite's row order is unspecified. The model fixes descending category order, one of the orders SQLite may return.
