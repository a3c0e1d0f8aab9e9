/**
 * The queries the routes run against the expenses and limits tables, stated
 * as what they select rather than as SQL text: conjunctive WHERE clauses,
 * SUM over the selected rows (NULL read as 0), ORDER BY date, the per-category
 * limit check, and the DELETE, UPDATE and upsert the routes write with.
 */
module Queries {
  import opened Text
  import opened Tables

  // ---- WHERE clauses over the expenses table ----

  /** One conjunct of a WHERE clause over `expenses`. */
  datatype Cond =
    | OwnedBy(userId: nat)          // user_id=?
    | CategoryIs(category: string)  // category=?
    | DateFrom(from: string)        // date>=?
    | DateTo(to: string)            // date<=?
    | IdIsNot(id: nat)              // id!=?
    | MonthIs(month: string)        // strftime('%Y-%m', date)=?

  /** Whether a row satisfies one conjunct. Dates compare as TEXT; the month of
      a row whose date is not a calendar date is SQL NULL, equal to nothing. */
  predicate Holds(e: Expense, c: Cond) {
    match c
    case OwnedBy(u) => e.userId == u
    case CategoryIs(k) => e.category == k
    case DateFrom(d) => TextLe(d, e.date)
    case DateTo(d) => TextLe(e.date, d)
    case IdIsNot(i) => e.id != i
    case MonthIs(m) => IsoDate(e.date) && MonthOf(e.date) == m
  }

  predicate AllHold(e: Expense, conds: seq<Cond>) {
    forall i | 0 <= i < |conds| :: Holds(e, conds[i])
  }

  /** `SELECT ... WHERE c1 AND c2 AND ...`: the rows satisfying every conjunct,
      each as often as the table holds it. */
  function Where(rows: seq<Expense>, conds: seq<Cond>): seq<Expense> {
    if rows == [] then []
    else (if AllHold(rows[0], conds) then [rows[0]] else []) + Where(rows[1..], conds)
  }

  /** The selection keeps each row that meets every conjunct, as many times as
      the table holds it, and no other row. */
  lemma {:induction false} WhereCount(rows: seq<Expense>, conds: seq<Cond>, e: Expense)
    ensures multiset(Where(rows, conds))[e] == if AllHold(e, conds) then multiset(rows)[e] else 0
  {
    if rows != [] {
      assert rows == [rows[0]] + rows[1..];
      WhereCount(rows[1..], conds, e);
    }
  }

  lemma {:induction false} WhereConcat(a: seq<Expense>, b: seq<Expense>, conds: seq<Cond>)
    ensures Where(a + b, conds) == Where(a, conds) + Where(b, conds)
  {
    if a == [] {
      assert a + b == b;
    } else {
      var head := if AllHold(a[0], conds) then [a[0]] else [];
      assert (a + b)[0] == a[0] && (a + b)[1..] == a[1..] + b;
      assert Where(a + b, conds) == head + Where(a[1..] + b, conds);
      WhereConcat(a[1..], b, conds);
      assert Where(a, conds) == head + Where(a[1..], conds);
    }
  }

  /** Filtering twice is filtering once by both clauses. */
  lemma {:induction false} WhereNested(rows: seq<Expense>, a: seq<Cond>, b: seq<Cond>)
    ensures Where(Where(rows, a), b) == Where(rows, a + b)
  {
    if rows != [] {
      WhereNested(rows[1..], a, b);
      var head := if AllHold(rows[0], a) then [rows[0]] else [];
      WhereConcat(head, Where(rows[1..], a), b);
      assert AllHold(rows[0], a + b) <==> AllHold(rows[0], a) && AllHold(rows[0], b) by {
        assert forall i | 0 <= i < |a| :: (a + b)[i] == a[i];
        assert forall i | 0 <= i < |b| :: (a + b)[|a| + i] == b[i];
      }
    }
  }

  /** Two clauses that agree on every row of a table select the same rows. */
  lemma {:induction false} WhereAgree(rows: seq<Expense>, a: seq<Cond>, b: seq<Cond>)
    requires forall i | 0 <= i < |rows| :: AllHold(rows[i], a) == AllHold(rows[i], b)
    ensures Where(rows, a) == Where(rows, b)
  {
    if rows != [] {
      WhereAgree(rows[1..], a, b);
    }
  }

  /** What a user's rows are is all a query that starts with `user_id=?` sees:
      other users' rows, wherever they sit in the table, never change its result. */
  lemma OwnRowsDecide(a: seq<Expense>, b: seq<Expense>, userId: nat, conds: seq<Cond>)
    requires Where(a, [OwnedBy(userId)]) == Where(b, [OwnedBy(userId)])
    ensures Where(a, [OwnedBy(userId)] + conds) == Where(b, [OwnedBy(userId)] + conds)
  {
    WhereNested(a, [OwnedBy(userId)], conds);
    WhereNested(b, [OwnedBy(userId)], conds);
  }

  // ---- SUM(amount) ----

  /** `SUM(amount)` over the rows, with the NULL of an empty sum read as 0. */
  function Sum(rows: seq<Expense>): real {
    if rows == [] then 0.0 else rows[0].amount + Sum(rows[1..])
  }

  lemma {:induction false} SumConcat(a: seq<Expense>, b: seq<Expense>)
    ensures Sum(a + b) == Sum(a) + Sum(b)
  {
    if a == [] {
      assert a + b == b;
    } else {
      assert (a + b)[1..] == a[1..] + b;
      SumConcat(a[1..], b);
    }
  }

  /** Taking one row out of a sum takes out its amount. */
  lemma SumWithout(b: seq<Expense>, k: nat)
    requires k < |b|
    ensures Sum(b) == b[k].amount + Sum(b[..k] + b[k + 1..])
  {
    assert b == b[..k] + ([b[k]] + b[k + 1..]);
    SumConcat(b[..k], [b[k]] + b[k + 1..]);
    assert ([b[k]] + b[k + 1..])[1..] == b[k + 1..];
    SumConcat(b[..k], b[k + 1..]);
  }

  /** A sum does not depend on the order of the rows. */
  lemma {:induction false} SumPermutation(a: seq<Expense>, b: seq<Expense>)
    requires multiset(a) == multiset(b)
    ensures Sum(a) == Sum(b)
  {
    if a == [] {
      assert |b| == |multiset(b)| == 0;
    } else {
      var x := a[0];
      assert x in multiset(a);
      var k :| 0 <= k < |b| && b[k] == x;
      SumWithout(b, k);
      var rest := b[..k] + b[k + 1..];
      assert multiset(rest) == multiset(b) - multiset{x} by {
        assert b == b[..k] + [x] + b[k + 1..];
      }
      assert multiset(a[1..]) == multiset(a) - multiset{x} by {
        assert a == [x] + a[1..];
      }
      SumPermutation(a[1..], rest);
    }
  }

  // ---- ORDER BY date ----

  /** `a` may come before `b` under `ORDER BY date` (descending: `DESC`). */
  predicate InOrder(a: string, b: string, descending: bool) {
    if descending then TextLe(b, a) else TextLe(a, b)
  }

  predicate DateOrdered(rows: seq<Expense>, descending: bool) {
    forall i, j | 0 <= i < j < |rows| :: InOrder(rows[i].date, rows[j].date, descending)
  }

  lemma InOrderTotal(a: string, b: string, descending: bool)
    ensures InOrder(a, b, descending) || InOrder(b, a, descending)
  {
    TextLeTotal(a, b);
  }

  lemma InOrderTransitive(a: string, b: string, c: string, descending: bool)
    requires InOrder(a, b, descending) && InOrder(b, c, descending)
    ensures InOrder(a, c, descending)
  {
    if descending {
      TextLeTransitive(c, b, a);
    } else {
      TextLeTransitive(a, b, c);
    }
  }

  /** A row placed before an ordered sequence whose first row it may precede
      keeps the sequence ordered. */
  lemma PrependOrdered(e: Expense, rows: seq<Expense>, descending: bool)
    requires DateOrdered(rows, descending)
    requires rows != [] ==> InOrder(e.date, rows[0].date, descending)
    ensures DateOrdered([e] + rows, descending)
  {
    var r := [e] + rows;
    forall i, j | 0 <= i < j < |r|
      ensures InOrder(r[i].date, r[j].date, descending)
    {
      assert r[j] == rows[j - 1];
      if i == 0 {
        if j > 1 {
          InOrderTransitive(e.date, rows[0].date, rows[j - 1].date, descending);
        }
      } else {
        assert r[i] == rows[i - 1];
      }
    }
  }

  /** Below the first row of an ordered sequence the rest stay ordered and may
      all follow it. */
  lemma DateOrderedTail(rows: seq<Expense>, descending: bool)
    requires DateOrdered(rows, descending) && rows != []
    ensures DateOrdered(rows[1..], descending)
    ensures forall x | x in rows[1..] :: InOrder(rows[0].date, x.date, descending)
  {
    forall x | x in rows[1..] ensures InOrder(rows[0].date, x.date, descending) {
      var i :| 0 <= i < |rows[1..]| && rows[1..][i] == x;
      assert rows[i + 1] == x;
    }
  }

  /** Inserts a row into an ordered sequence after every row it may not precede. */
  function Insert(e: Expense, rows: seq<Expense>, descending: bool): (r: seq<Expense>)
    requires DateOrdered(rows, descending)
    ensures DateOrdered(r, descending)
    ensures multiset(r) == multiset(rows) + multiset{e}
  {
    if rows == [] || InOrder(e.date, rows[0].date, descending) then
      PrependOrdered(e, rows, descending);
      [e] + rows
    else
      assert rows == [rows[0]] + rows[1..];
      DateOrderedTail(rows, descending);
      var tail := Insert(e, rows[1..], descending);
      InOrderTotal(e.date, rows[0].date, descending);
      assert InOrder(rows[0].date, tail[0].date, descending) by {
        assert tail[0] in multiset(tail);
        if tail[0] != e {
          assert tail[0] in rows[1..];
        }
      }
      PrependOrdered(rows[0], tail, descending);
      [rows[0]] + tail
  }

  /** `ORDER BY date` (or `ORDER BY date DESC`): the same rows, in date order;
      rows with equal dates may come in either order. */
  function SortByDate(rows: seq<Expense>, descending: bool): (r: seq<Expense>)
    ensures DateOrdered(r, descending)
    ensures multiset(r) == multiset(rows)
  {
    if rows == [] then []
    else
      assert rows == [rows[0]] + rows[1..];
      Insert(rows[0], SortByDate(rows[1..], descending), descending)
  }

  // ---- The listing's filters ----

  /** The listing's optional query parameters. */
  datatype Filter = Filter(category: Option<string>, fromDate: Option<string>, toDate: Option<string>)

  /** A parameter restricts the listing only when present and non-empty. */
  predicate Given(p: Option<string>) {
    p.Some? && p.value != ""
  }

  /** The listing's selection: the caller's rows meeting every given filter. */
  predicate Selected(e: Expense, userId: nat, f: Filter) {
    && e.userId == userId
    && (Given(f.category) ==> e.category == f.category.value)
    && (Given(f.fromDate) ==> TextLe(f.fromDate.value, e.date))
    && (Given(f.toDate) ==> TextLe(e.date, f.toDate.value))
  }

  // ---- The per-category limit check ----

  /** `user_id=? AND category=?`, with `AND id!=?` when a row is left out. */
  function CategoryConds(userId: nat, category: string, except: Option<nat>): seq<Cond> {
    [OwnedBy(userId), CategoryIs(category)] + if except.Some? then [IdIsNot(except.value)] else []
  }

  /** What the user has spent in the category, leaving out the row `except`. */
  function CategoryTotal(expenses: seq<Expense>, userId: nat, category: string, except: Option<nat>): real {
    Sum(Where(expenses, CategoryConds(userId, category, except)))
  }

  /** The check that rejects an add or an edit: a limit exists for the pair and
      the existing total plus the new amount is strictly above it. */
  predicate OverLimit(
    expenses: seq<Expense>, limits: seq<Limit>, userId: nat, category: string, amount: real, except: Option<nat>)
  {
    LimitFor(limits, userId, category).Some? &&
    CategoryTotal(expenses, userId, category, except) + amount > LimitFor(limits, userId, category).value
  }

  /** One limit row holds: its user's total in its category is at most its ceiling. */
  predicate LimitHolds(expenses: seq<Expense>, l: Limit) {
    CategoryTotal(expenses, l.userId, l.category, None) <= l.amount
  }

  /** Going from `before` to `after`, every limit row that held still holds,
      whatever the other rows do. */
  predicate KeepsLimits(before: seq<Expense>, after: seq<Expense>, limits: seq<Limit>) {
    forall i | 0 <= i < |limits| :: LimitHolds(before, limits[i]) ==> LimitHolds(after, limits[i])
  }

  /** The conjunct `id!=?` added to a clause excludes exactly that id. */
  lemma AllHoldWithout(e: Expense, conds: seq<Cond>, id: nat)
    ensures AllHold(e, conds + [IdIsNot(id)]) <==> AllHold(e, conds) && e.id != id
  {
    var without := conds + [IdIsNot(id)];
    assert without[|conds|] == IdIsNot(id);
    assert forall i | 0 <= i < |conds| :: without[i] == conds[i];
  }

  /** Leaving out the first row's id drops that row alone from a sum over a
      table with increasing ids. */
  lemma TotalWithoutFirstRow(rows: seq<Expense>, conds: seq<Cond>)
    requires IdsIncrease(rows) && rows != []
    ensures Sum(Where(rows, conds)) ==
      Sum(Where(rows, conds + [IdIsNot(rows[0].id)])) + if AllHold(rows[0], conds) then rows[0].amount else 0.0
  {
    var id := rows[0].id;
    var without := conds + [IdIsNot(id)];
    var rest := rows[1..];
    IdsIncreaseTail(rows);
    AllHoldWithout(rows[0], conds, id);
    forall i | 0 <= i < |rest| ensures AllHold(rest[i], conds) == AllHold(rest[i], without) {
      assert rest[i] in rest;
      AllHoldWithout(rest[i], conds, id);
    }
    WhereAgree(rest, conds, without);
    assert Where(rows, without) == Where(rest, without);
    var head := if AllHold(rows[0], conds) then [rows[0]] else [];
    assert Sum(head) == if AllHold(rows[0], conds) then rows[0].amount else 0.0;
    SumConcat(head, Where(rest, conds));
  }

  /** Leaving one row out of a sum over a table with distinct ids takes away
      exactly that row's amount, if the row was selected. */
  lemma {:induction false} TotalWithoutRow(rows: seq<Expense>, conds: seq<Cond>, k: nat)
    requires IdsIncrease(rows) && k < |rows|
    ensures Sum(Where(rows, conds)) ==
      Sum(Where(rows, conds + [IdIsNot(rows[k].id)])) + if AllHold(rows[k], conds) then rows[k].amount else 0.0
  {
    if k == 0 {
      TotalWithoutFirstRow(rows, conds);
    } else {
      var id := rows[k].id;
      var without := conds + [IdIsNot(id)];
      var rest := rows[1..];
      assert IdsIncrease(rest) by { IdsIncreaseTail(rows); }
      assert rest[k - 1] == rows[k];
      assert rows[0].id < id;
      AllHoldWithout(rows[0], conds, id);
      TotalWithoutRow(rest, conds, k - 1);
      var head := if AllHold(rows[0], conds) then [rows[0]] else [];
      assert Where(rows, without) == head + Where(rest, without);
      SumConcat(head, Where(rest, conds));
      SumConcat(head, Where(rest, without));
    }
  }

  /** An accepted add keeps every limit that held: the only total that grows
      is the user's total in the added category, and the check bounded that one. */
  lemma AddKeepsWithinLimits(
    expenses: seq<Expense>, limits: seq<Limit>, userId: nat, entry: Entry, id: nat)
    requires OneLimitPerPair(limits)
    requires !OverLimit(expenses, limits, userId, entry.category, entry.amount, None)
    ensures KeepsLimits(expenses, expenses + [NewExpense(id, userId, entry)], limits)
  {
    var added := NewExpense(id, userId, entry);
    forall i | 0 <= i < |limits| && LimitHolds(expenses, limits[i])
      ensures LimitHolds(expenses + [added], limits[i])
    {
      var conds := CategoryConds(limits[i].userId, limits[i].category, None);
      WhereConcat(expenses, [added], conds);
      SumConcat(Where(expenses, conds), Where([added], conds));
      if AllHold(added, conds) {
        assert Holds(added, conds[0]) && Holds(added, conds[1]);
        LimitForRow(limits, i);
      }
    }
  }

  /** Saving a row again with its own amount and category never trips the
      limit of its category when that limit holds: the edit's total leaves the
      row itself out. */
  lemma ResaveNeverTrips(expenses: seq<Expense>, limits: seq<Limit>, k: nat)
    requires IdsIncrease(expenses) && k < |expenses|
    requires var e := expenses[k];
      LimitFor(limits, e.userId, e.category).Some? ==>
        CategoryTotal(expenses, e.userId, e.category, None) <= LimitFor(limits, e.userId, e.category).value
    ensures !OverLimit(expenses, limits, expenses[k].userId, expenses[k].category, expenses[k].amount,
                       Some(expenses[k].id))
  {
    var e := expenses[k];
    var conds := CategoryConds(e.userId, e.category, None);
    TotalWithoutRow(expenses, conds, k);
    assert CategoryConds(e.userId, e.category, Some(e.id)) == conds + [IdIsNot(e.id)];
    assert AllHold(e, conds);
  }

  // ---- DELETE ----

  /** `DELETE FROM expenses WHERE id=? AND user_id=?`. */
  function Deleted(expenses: seq<Expense>, id: nat, userId: nat): (r: seq<Expense>)
    ensures FindOwned(expenses, id, userId).None? ==> r == expenses
  {
    if expenses == [] then []
    else
      var keep := !(expenses[0].id == id && expenses[0].userId == userId);
      (if keep then [expenses[0]] else []) + Deleted(expenses[1..], id, userId)
  }

  /** A delete removes every copy of the caller's row with that id and keeps
      every other row, as many times as the table holds it. */
  lemma {:induction false} DeletedCount(expenses: seq<Expense>, id: nat, userId: nat, e: Expense)
    ensures multiset(Deleted(expenses, id, userId))[e] ==
      if e.id == id && e.userId == userId then 0 else multiset(expenses)[e]
  {
    if expenses != [] {
      assert expenses == [expenses[0]] + expenses[1..];
      DeletedCount(expenses[1..], id, userId, e);
    }
  }

  /** Deleting twice is deleting once. */
  lemma {:induction false} DeleteIdempotent(expenses: seq<Expense>, id: nat, userId: nat)
    ensures Deleted(Deleted(expenses, id, userId), id, userId) == Deleted(expenses, id, userId)
  {
    if expenses != [] {
      DeleteIdempotent(expenses[1..], id, userId);
      var rest := Deleted(expenses[1..], id, userId);
      if expenses[0].id == id && expenses[0].userId == userId {
        assert Deleted(expenses, id, userId) == rest;
      } else {
        var kept := [expenses[0]] + rest;
        assert Deleted(expenses, id, userId) == kept;
        assert kept[0] == expenses[0] && kept[1..] == rest;
        assert Deleted(kept, id, userId) == [expenses[0]] + Deleted(rest, id, userId);
      }
    }
  }

  /** With increasing ids, deleting the first row's id and owner drops that row alone. */
  lemma DeleteFirstRow(expenses: seq<Expense>)
    requires IdsIncrease(expenses) && expenses != []
    ensures Deleted(expenses, expenses[0].id, expenses[0].userId) == expenses[1..]
  {
    var e := expenses[0];
    var rest := expenses[1..];
    IdsIncreaseTail(expenses);
    assert FindOwned(rest, e.id, e.userId).None? by {
      forall i | 0 <= i < |rest| ensures rest[i].id != e.id {
        assert rest[i] in rest;
      }
    }
    assert Deleted(expenses, e.id, e.userId) == [] + Deleted(rest, e.id, e.userId);
  }

  /** With distinct ids, deleting an owned row removes that row and nothing else. */
  lemma {:induction false} DeleteRemovesOne(expenses: seq<Expense>, k: nat)
    requires IdsIncrease(expenses) && k < |expenses|
    ensures Deleted(expenses, expenses[k].id, expenses[k].userId) == expenses[..k] + expenses[k + 1..]
  {
    if k == 0 {
      DeleteFirstRow(expenses);
      assert expenses[..0] + expenses[1..] == expenses[1..];
    } else {
      var e := expenses[k];
      var rest := expenses[1..];
      assert IdsIncrease(rest) by { IdsIncreaseTail(expenses); }
      assert rest[k - 1] == e;
      assert expenses[0].id < e.id;
      DeleteRemovesOne(rest, k - 1);
      assert rest[..k - 1] == expenses[1..k];
      assert rest[k..] == expenses[k + 1..];
      calc {
        Deleted(expenses, e.id, e.userId);
        [expenses[0]] + Deleted(rest, e.id, e.userId);
        [expenses[0]] + (expenses[1..k] + expenses[k + 1..]);
        ([expenses[0]] + expenses[1..k]) + expenses[k + 1..];
        { assert [expenses[0]] + expenses[1..k] == expenses[..k]; }
        expenses[..k] + expenses[k + 1..];
      }
    }
  }

  /** A delete adds no row. */
  lemma DeletedRowsFromTable(expenses: seq<Expense>, id: nat, userId: nat)
    ensures forall x | x in Deleted(expenses, id, userId) :: x in expenses
  {
    forall x | x in Deleted(expenses, id, userId) ensures x in expenses {
      DeletedCount(expenses, id, userId, x);
      assert x in multiset(Deleted(expenses, id, userId));
    }
  }

  lemma {:induction false} DeletedIdsIncrease(expenses: seq<Expense>, id: nat, userId: nat)
    requires IdsIncrease(expenses)
    ensures IdsIncrease(Deleted(expenses, id, userId))
  {
    if expenses != [] {
      IdsIncreaseTail(expenses);
      var rest := Deleted(expenses[1..], id, userId);
      DeletedIdsIncrease(expenses[1..], id, userId);
      if expenses[0].id == id && expenses[0].userId == userId {
        assert Deleted(expenses, id, userId) == [] + rest;
      } else {
        DeletedRowsFromTable(expenses[1..], id, userId);
        IdsIncreasePrepend(expenses[0], rest);
      }
    }
  }

  /** What a delete leaves is still a table: ids below the next id, in increasing order. */
  lemma DeletedKeepsTable(expenses: seq<Expense>, id: nat, userId: nat, nextId: nat)
    requires ExpensesTable(expenses, nextId)
    ensures ExpensesTable(Deleted(expenses, id, userId), nextId)
  {
    DeletedIdsIncrease(expenses, id, userId);
    DeletedRowsFromTable(expenses, id, userId);
    var r := Deleted(expenses, id, userId);
    forall i | 0 <= i < |r| ensures 1 <= r[i].id < nextId {
      assert r[i] in r;
    }
  }

  /** A delete only touches the caller's rows: every other user's rows stay as they were. */
  lemma {:induction false} DeleteIsolated(expenses: seq<Expense>, id: nat, userId: nat, other: nat)
    requires other != userId
    ensures Where(Deleted(expenses, id, userId), [OwnedBy(other)]) == Where(expenses, [OwnedBy(other)])
  {
    if expenses != [] {
      DeleteIsolated(expenses[1..], id, userId, other);
      var head := if !(expenses[0].id == id && expenses[0].userId == userId) then [expenses[0]] else [];
      WhereConcat(head, Deleted(expenses[1..], id, userId), [OwnedBy(other)]);
      assert expenses == [expenses[0]] + expenses[1..];
      WhereConcat([expenses[0]], expenses[1..], [OwnedBy(other)]);
      if head == [] {
        assert !Holds(expenses[0], [OwnedBy(other)][0]);
        assert [expenses[0]][1..] == [];
      }
    }
  }

  /** Deleting a row of non-negative amount lowers no total. */
  lemma {:induction false} DeleteLowersTotals(expenses: seq<Expense>, id: nat, userId: nat, conds: seq<Cond>)
    requires forall e | e in expenses && e.id == id && e.userId == userId :: e.amount >= 0.0
    ensures Sum(Where(Deleted(expenses, id, userId), conds)) <= Sum(Where(expenses, conds))
  {
    if expenses != [] {
      DeleteLowersTotals(expenses[1..], id, userId, conds);
      var keep := !(expenses[0].id == id && expenses[0].userId == userId);
      var head := if keep then [expenses[0]] else [];
      var rest := Deleted(expenses[1..], id, userId);
      WhereConcat(head, rest, conds);
      SumConcat(Where(head, conds), Where(rest, conds));
      var picked := if AllHold(expenses[0], conds) then [expenses[0]] else [];
      SumConcat(picked, Where(expenses[1..], conds));
    }
  }

  /** A delete keeps every limit that held when the deleted row's amount is not negative. */
  lemma DeleteKeepsWithinLimits(expenses: seq<Expense>, limits: seq<Limit>, id: nat, userId: nat)
    requires forall e | e in expenses && e.id == id && e.userId == userId :: e.amount >= 0.0
    ensures KeepsLimits(expenses, Deleted(expenses, id, userId), limits)
  {
    forall i | 0 <= i < |limits| && LimitHolds(expenses, limits[i])
      ensures LimitHolds(Deleted(expenses, id, userId), limits[i])
    {
      DeleteLowersTotals(expenses, id, userId, CategoryConds(limits[i].userId, limits[i].category, None));
    }
  }

  // ---- UPDATE ----

  /** `UPDATE expenses SET amount=?, category=?, description=?, date=? WHERE id=? AND user_id=?`. */
  function Revised(expenses: seq<Expense>, id: nat, userId: nat, entry: Entry): (r: seq<Expense>)
    ensures |r| == |expenses|
    ensures forall i | 0 <= i < |r| ::
      r[i] == if expenses[i].id == id && expenses[i].userId == userId then NewExpense(id, userId, entry)
              else expenses[i]
  {
    if expenses == [] then []
    else
      var head := if expenses[0].id == id && expenses[0].userId == userId then NewExpense(id, userId, entry)
                  else expenses[0];
      [head] + Revised(expenses[1..], id, userId, entry)
  }

  /** An update only touches the caller's rows: every other user's rows stay as they were. */
  lemma {:induction false} EditIsolated(expenses: seq<Expense>, id: nat, userId: nat, entry: Entry, other: nat)
    requires other != userId
    ensures Where(Revised(expenses, id, userId, entry), [OwnedBy(other)]) == Where(expenses, [OwnedBy(other)])
  {
    if expenses != [] {
      EditIsolated(expenses[1..], id, userId, entry, other);
      var r := Revised(expenses, id, userId, entry);
      assert r[1..] == Revised(expenses[1..], id, userId, entry);
      assert Holds(r[0], [OwnedBy(other)][0]) <==> Holds(expenses[0], [OwnedBy(other)][0]);
      if r[0] != expenses[0] {
        assert !Holds(expenses[0], [OwnedBy(other)][0]);
      }
    }
  }

  /** What an update leaves is still a table: it changes no id. */
  lemma RevisedKeepsTable(expenses: seq<Expense>, id: nat, userId: nat, entry: Entry, nextId: nat)
    requires ExpensesTable(expenses, nextId)
    ensures ExpensesTable(Revised(expenses, id, userId, entry), nextId)
  {
    var r := Revised(expenses, id, userId, entry);
    assert forall i | 0 <= i < |r| :: r[i].id == expenses[i].id;
  }

  /** Two tables that differ only in rows with id `id` agree on every query
      that excludes `id`. */
  lemma {:induction false} WhereSkipsId(a: seq<Expense>, b: seq<Expense>, conds: seq<Cond>, id: nat)
    requires |a| == |b|
    requires forall i | 0 <= i < |a| :: a[i] == b[i] || (a[i].id == id && b[i].id == id)
    ensures Where(a, conds + [IdIsNot(id)]) == Where(b, conds + [IdIsNot(id)])
  {
    if a != [] {
      WhereSkipsId(a[1..], b[1..], conds, id);
      if a[0] != b[0] {
        assert !Holds(a[0], (conds + [IdIsNot(id)])[|conds|]);
        assert !Holds(b[0], (conds + [IdIsNot(id)])[|conds|]);
      }
    }
  }

  /** An edit moves one row's amount out of the totals it was in and into the
      totals its new values put it in. */
  lemma EditMovesAmount(expenses: seq<Expense>, k: nat, entry: Entry, conds: seq<Cond>)
    requires IdsIncrease(expenses) && k < |expenses|
    ensures var e := expenses[k];
      var revised := Revised(expenses, e.id, e.userId, entry);
      && Sum(Where(revised, conds)) ==
           Sum(Where(expenses, conds + [IdIsNot(e.id)])) + (if AllHold(revised[k], conds) then entry.amount else 0.0)
      && Sum(Where(expenses, conds)) ==
           Sum(Where(expenses, conds + [IdIsNot(e.id)])) + (if AllHold(e, conds) then e.amount else 0.0)
  {
    var e := expenses[k];
    var revised := Revised(expenses, e.id, e.userId, entry);
    assert IdsIncrease(revised) by {
      assert forall i | 0 <= i < |revised| :: revised[i].id == expenses[i].id;
    }
    assert revised[k] == NewExpense(e.id, e.userId, entry);
    TotalWithoutRow(expenses, conds, k);
    TotalWithoutRow(revised, conds, k);
    WhereSkipsId(expenses, revised, conds, e.id);
  }

  /** An accepted edit keeps every limit that held when the edited row's old
      amount is not negative: the total it moves into was bounded by the check,
      and the total it leaves only falls. */
  lemma EditKeepsWithinLimits(expenses: seq<Expense>, limits: seq<Limit>, k: nat, entry: Entry)
    requires IdsIncrease(expenses) && k < |expenses|
    requires OneLimitPerPair(limits)
    requires expenses[k].amount >= 0.0
    requires !OverLimit(expenses, limits, expenses[k].userId, entry.category, entry.amount, Some(expenses[k].id))
    ensures KeepsLimits(expenses, Revised(expenses, expenses[k].id, expenses[k].userId, entry), limits)
  {
    var e := expenses[k];
    var revised := Revised(expenses, e.id, e.userId, entry);
    assert revised[k] == NewExpense(e.id, e.userId, entry);
    forall i | 0 <= i < |limits| && LimitHolds(expenses, limits[i])
      ensures LimitHolds(revised, limits[i])
    {
      var conds := CategoryConds(limits[i].userId, limits[i].category, None);
      EditMovesAmount(expenses, k, entry, conds);
      if AllHold(revised[k], conds) {
        assert Holds(revised[k], conds[0]) && Holds(revised[k], conds[1]);
        LimitForRow(limits, i);
        assert CategoryConds(e.userId, entry.category, Some(e.id)) == conds + [IdIsNot(e.id)];
      }
    }
  }

  /** An accepted edit of an owned row keeps every limit that held, provided
      the row's old amount was not negative. */
  lemma AcceptedEditKeepsLimits(expenses: seq<Expense>, limits: seq<Limit>, id: nat, userId: nat, entry: Entry)
    requires IdsIncrease(expenses) && OneLimitPerPair(limits)
    requires FindOwned(expenses, id, userId).Some? && FindOwned(expenses, id, userId).value.amount >= 0.0
    requires !OverLimit(expenses, limits, userId, entry.category, entry.amount, Some(id))
    ensures KeepsLimits(expenses, Revised(expenses, id, userId, entry), limits)
  {
    var e := FindOwned(expenses, id, userId).value;
    var k :| 0 <= k < |expenses| && expenses[k] == e;
    EditKeepsWithinLimits(expenses, limits, k, entry);
  }

  // ---- The limit upsert ----

  /** `UPDATE limits SET limit_amount=? WHERE user_id=? AND category=?`. */
  function Overwritten(limits: seq<Limit>, userId: nat, category: string, amount: real): (r: seq<Limit>)
    ensures |r| == |limits|
    ensures forall i | 0 <= i < |r| ::
      r[i].id == limits[i].id && r[i].userId == limits[i].userId && r[i].category == limits[i].category
    ensures forall i | 0 <= i < |r| ::
      r[i].amount == if limits[i].userId == userId && limits[i].category == category then amount else limits[i].amount
    ensures LimitFor(r, userId, category) == if LimitFor(limits, userId, category).Some? then Some(amount) else None
    ensures forall u, c | u != userId || c != category :: LimitFor(r, u, c) == LimitFor(limits, u, c)
  {
    if limits == [] then []
    else
      var l := limits[0];
      var head := if l.userId == userId && l.category == category then l.(amount := amount) else l;
      var tail := Overwritten(limits[1..], userId, category, amount);
      var r := [head] + tail;
      assert r[1..] == tail;
      r
  }

  lemma {:induction false} LimitForAppend(limits: seq<Limit>, l: Limit, userId: nat, category: string)
    ensures LimitFor(limits + [l], userId, category) ==
      if LimitFor(limits, userId, category).Some? then LimitFor(limits, userId, category)
      else if l.userId == userId && l.category == category then Some(l.amount)
      else None
  {
    if limits != [] {
      assert (limits + [l])[1..] == limits[1..] + [l];
      LimitForAppend(limits[1..], l, userId, category);
    }
  }

  /** The limit route's write: overwrite the pair's row when it exists,
      otherwise insert one with the next id. Afterwards the pair has exactly
      the new ceiling, every other pair keeps its ceiling, and one row per pair
      stays one row per pair. */
  function Upserted(limits: seq<Limit>, userId: nat, category: string, amount: real, newId: nat): (r: seq<Limit>)
    ensures LimitFor(r, userId, category) == Some(amount)
    ensures forall u, c | u != userId || c != category :: LimitFor(r, u, c) == LimitFor(limits, u, c)
    ensures OneLimitPerPair(limits) ==> OneLimitPerPair(r)
  {
    if LimitFor(limits, userId, category).Some? then
      Overwritten(limits, userId, category, amount)
    else
      var added := Limit(newId, userId, category, amount);
      LimitForAppend(limits, added, userId, category);
      assert forall u, c | u != userId || c != category ::
        LimitFor(limits + [added], u, c) == LimitFor(limits, u, c) by {
        forall u, c | u != userId || c != category
          ensures LimitFor(limits + [added], u, c) == LimitFor(limits, u, c)
        {
          LimitForAppend(limits, added, u, c);
        }
      }
      limits + [added]
  }

  /** Setting the same limit twice is setting it once. */
  lemma UpsertIdempotent(limits: seq<Limit>, userId: nat, category: string, amount: real, newId: nat)
    ensures Upserted(Upserted(limits, userId, category, amount, newId), userId, category, amount, newId + 1)
         == Upserted(limits, userId, category, amount, newId)
  {
    var once := Upserted(limits, userId, category, amount, newId);
    var twice := Overwritten(once, userId, category, amount);
    forall i | 0 <= i < |once|
      ensures twice[i] == once[i]
    {
      if once[i].userId == userId && once[i].category == category && LimitFor(limits, userId, category).None? {
        assert i == |limits|;
      }
    }
  }

  /** The upsert keeps the limits table well formed: an overwrite keeps every
      id, an insert appends the next id and advances the counter. */
  lemma UpsertedKeepsTable(limits: seq<Limit>, userId: nat, category: string, amount: real, nextId: nat)
    requires LimitsTable(limits, nextId)
    ensures LimitsTable(Upserted(limits, userId, category, amount, nextId),
      if LimitFor(limits, userId, category).Some? then nextId else nextId + 1)
  {
    if LimitFor(limits, userId, category).Some? {
      OverwrittenIds(limits, userId, category, amount, nextId);
    } else {
      AppendedIds(limits, Limit(nextId, userId, category, amount), nextId);
    }
  }

  /** An overwrite changes only ceilings, so the table stays well formed. */
  lemma OverwrittenIds(limits: seq<Limit>, userId: nat, category: string, amount: real, nextId: nat)
    requires LimitsTable(limits, nextId)
    ensures LimitsTable(Overwritten(limits, userId, category, amount), nextId)
  {
    var r := Overwritten(limits, userId, category, amount);
    forall i, j | 0 <= i < j < |r| ensures r[i].id < r[j].id {
      assert r[i].id == limits[i].id && r[j].id == limits[j].id;
    }
  }

  /** Appending a new pair under the next id keeps the table well formed. */
  lemma AppendedIds(limits: seq<Limit>, added: Limit, nextId: nat)
    requires LimitsTable(limits, nextId) && added.id == nextId
    requires LimitFor(limits, added.userId, added.category).None?
    ensures LimitsTable(limits + [added], nextId + 1)
  {
    var r := limits + [added];
    forall i | 0 <= i < |limits| ensures r[i] == limits[i] && (r[i].userId != added.userId || r[i].category != added.category) {
      LimitForRow(limits, i);
    }
  }
}
