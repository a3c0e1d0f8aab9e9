/**
 * The read-only reports over a user's expenses: totals grouped by category,
 * totals grouped by month in descending month order, and a month's rows
 * exported as comma-separated text.
 */
module Summaries {
  import opened Text
  import opened Tables
  import opened Queries

  // ---- GROUP BY ----

  /** One row of a grouped result: the group's key and `SUM(amount)`. */
  datatype Total = Total(key: string, amount: real)

  function Keys(groups: seq<Total>): set<string> {
    set t | t in groups :: t.key
  }

  /** Keys strictly descending as TEXT, so in particular pairwise distinct. */
  predicate StrictlyDescending(groups: seq<Total>) {
    forall i, j | 0 <= i < j < |groups| :: TextLt(groups[j].key, groups[i].key)
  }

  /** The amount recorded for a key, 0 for a key with no group. */
  function TotalOf(groups: seq<Total>, key: string): real {
    if groups == [] then 0.0
    else if groups[0].key == key then groups[0].amount
    else TotalOf(groups[1..], key)
  }

  lemma {:induction false} TotalOfAbsent(groups: seq<Total>, key: string)
    requires key !in Keys(groups)
    ensures TotalOf(groups, key) == 0.0
  {
    if groups != [] {
      assert groups[0] in groups;
      assert Keys(groups[1..]) <= Keys(groups) by {
        forall t | t in groups[1..] ensures t in groups { }
      }
      TotalOfAbsent(groups[1..], key);
    }
  }

  /** With distinct keys, each group's own amount is what its key looks up. */
  lemma {:induction false} TotalOfEntry(groups: seq<Total>, i: nat)
    requires StrictlyDescending(groups) && i < |groups|
    ensures TotalOf(groups, groups[i].key) == groups[i].amount
  {
    if i > 0 {
      assert TextLt(groups[i].key, groups[0].key);
      assert groups[1..][i - 1] == groups[i];
      TotalOfEntry(groups[1..], i - 1);
    }
  }

  /** What the report groups by. */
  datatype GroupBy = ByCategory | ByMonth

  /** Month grouping is stated for calendar dates only. */
  predicate Groupable(rows: seq<Expense>, grouping: GroupBy) {
    grouping == ByMonth ==> forall e | e in rows :: IsoDate(e.date)
  }

  function GroupKey(e: Expense, grouping: GroupBy): string
    requires grouping == ByMonth ==> IsoDate(e.date)
  {
    match grouping
    case ByCategory => e.category
    case ByMonth => MonthOf(e.date)
  }

  /** The conjunct that selects one group's rows. */
  function KeyCond(grouping: GroupBy, key: string): Cond {
    match grouping
    case ByCategory => CategoryIs(key)
    case ByMonth => MonthIs(key)
  }

  /** Adds an amount to a key's group, creating the group in its place in
      descending key order when it is new. */
  function Bump(groups: seq<Total>, key: string, amount: real): seq<Total> {
    if groups == [] then [Total(key, amount)]
    else if groups[0].key == key then [Total(key, groups[0].amount + amount)] + groups[1..]
    else if TextLe(groups[0].key, key) then [Total(key, amount)] + groups
    else [groups[0]] + Bump(groups[1..], key, amount)
  }

  lemma PrependDescending(t: Total, groups: seq<Total>)
    requires StrictlyDescending(groups)
    requires forall k | k in Keys(groups) :: TextLt(k, t.key)
    ensures StrictlyDescending([t] + groups)
  {
    var r := [t] + groups;
    forall i, j | 0 <= i < j < |r| ensures TextLt(r[j].key, r[i].key) {
      assert r[j] == groups[j - 1] && r[j] in groups;
      if i > 0 {
        assert r[i] == groups[i - 1];
      }
    }
  }

  /** The keys of a list with one more group in front. */
  lemma KeysCons(t: Total, groups: seq<Total>)
    ensures Keys([t] + groups) == {t.key} + Keys(groups)
  {
    assert forall u :: u in [t] + groups <==> u == t || u in groups;
  }

  /** In descending order, every later key is below the first. */
  lemma BelowFirst(groups: seq<Total>)
    requires StrictlyDescending(groups) && groups != []
    ensures forall k | k in Keys(groups[1..]) :: TextLt(k, groups[0].key)
  {
    forall k | k in Keys(groups[1..]) ensures TextLt(k, groups[0].key) {
      var t :| t in groups[1..] && t.key == k;
      var i :| 0 <= i < |groups[1..]| && groups[1..][i] == t;
      assert groups[i + 1] == t;
    }
  }

  /** In descending order, every key is below anything above the first. */
  lemma BelowHead(groups: seq<Total>, key: string)
    requires StrictlyDescending(groups) && groups != [] && TextLt(groups[0].key, key)
    ensures forall k | k in Keys(groups) :: TextLt(k, key)
  {
    BelowFirst(groups);
    assert groups == [groups[0]] + groups[1..];
    KeysCons(groups[0], groups[1..]);
    forall k | k in Keys(groups) ensures TextLt(k, key) {
      if k != groups[0].key {
        TextLtTransitive(k, groups[0].key, key);
      }
    }
  }

  lemma {:induction false} BumpKeys(groups: seq<Total>, key: string, amount: real)
    ensures Keys(Bump(groups, key, amount)) == Keys(groups) + {key}
  {
    if groups == [] {
      KeysCons(Total(key, amount), []);
    } else {
      assert groups == [groups[0]] + groups[1..];
      KeysCons(groups[0], groups[1..]);
      if groups[0].key == key {
        KeysCons(Total(key, groups[0].amount + amount), groups[1..]);
      } else if TextLe(groups[0].key, key) {
        KeysCons(Total(key, amount), groups);
      } else {
        BumpKeys(groups[1..], key, amount);
        KeysCons(groups[0], Bump(groups[1..], key, amount));
      }
    }
  }

  lemma {:induction false} BumpDescending(groups: seq<Total>, key: string, amount: real)
    requires StrictlyDescending(groups)
    ensures StrictlyDescending(Bump(groups, key, amount))
  {
    var r := Bump(groups, key, amount);
    if groups == [] {
    } else if groups[0].key == key {
      assert forall i | 0 <= i < |r| :: r[i].key == groups[i].key;
    } else if TextLe(groups[0].key, key) {
      BelowHead(groups, key);
      PrependDescending(Total(key, amount), groups);
    } else {
      TextLeTotal(groups[0].key, key);
      var tail := Bump(groups[1..], key, amount);
      assert StrictlyDescending(groups[1..]);
      BumpDescending(groups[1..], key, amount);
      BumpKeys(groups[1..], key, amount);
      BelowFirst(groups);
      PrependDescending(groups[0], tail);
    }
  }

  lemma {:induction false} BumpTotal(groups: seq<Total>, key: string, amount: real, k: string)
    requires StrictlyDescending(groups)
    ensures TotalOf(Bump(groups, key, amount), k) == TotalOf(groups, k) + (if k == key then amount else 0.0)
  {
    var r := Bump(groups, key, amount);
    if groups == [] {
      assert r[1..] == [];
    } else if groups[0].key == key {
      assert r[1..] == groups[1..];
    } else if TextLe(groups[0].key, key) {
      assert r[1..] == groups;
      if k == key {
        BelowHead(groups, key);
        TotalOfAbsent(groups, key);
      }
    } else {
      assert r[1..] == Bump(groups[1..], key, amount);
      if k != groups[0].key {
        assert StrictlyDescending(groups[1..]);
        BumpTotal(groups[1..], key, amount, k);
      }
    }
  }

  /** `GROUP BY key`: one group per key among the rows, holding the sum of the
      amounts of that key's rows; groups are kept in descending key order. */
  function GroupTotals(rows: seq<Expense>, grouping: GroupBy): seq<Total>
    requires Groupable(rows, grouping)
  {
    if rows == [] then []
    else
      assert rows[0] in rows;
      Bump(GroupTotals(rows[1..], grouping), GroupKey(rows[0], grouping), rows[0].amount)
  }

  /** The groups are in strictly descending key order, one for each key the rows carry. */
  lemma {:induction false} GroupTotalsOrder(rows: seq<Expense>, grouping: GroupBy)
    requires Groupable(rows, grouping)
    ensures StrictlyDescending(GroupTotals(rows, grouping))
    ensures Keys(GroupTotals(rows, grouping)) == set e | e in rows :: GroupKey(e, grouping)
  {
    if rows != [] {
      var x := rows[0];
      assert x in rows;
      var g := GroupTotals(rows[1..], grouping);
      assert Groupable(rows[1..], grouping);
      GroupTotalsOrder(rows[1..], grouping);
      BumpDescending(g, GroupKey(x, grouping), x.amount);
      BumpKeys(g, GroupKey(x, grouping), x.amount);
      assert rows == [x] + rows[1..];
      assert (set e | e in rows :: GroupKey(e, grouping)) ==
        (set e | e in rows[1..] :: GroupKey(e, grouping)) + {GroupKey(x, grouping)};
    }
  }

  /** Each key's group holds the sum of the amounts of the rows with that key. */
  lemma {:induction false} GroupTotalsSum(rows: seq<Expense>, grouping: GroupBy, k: string)
    requires Groupable(rows, grouping)
    ensures TotalOf(GroupTotals(rows, grouping), k) == Sum(Where(rows, [KeyCond(grouping, k)]))
  {
    if rows != [] {
      var x := rows[0];
      assert x in rows;
      var key := GroupKey(x, grouping);
      assert Groupable(rows[1..], grouping);
      GroupTotalsOrder(rows[1..], grouping);
      GroupTotalsSum(rows[1..], grouping, k);
      BumpTotal(GroupTotals(rows[1..], grouping), key, x.amount, k);
      assert AllHold(x, [KeyCond(grouping, k)]) <==> key == k by {
        assert [KeyCond(grouping, k)][0] == KeyCond(grouping, k);
      }
      var head := if AllHold(x, [KeyCond(grouping, k)]) then [x] else [];
      assert Sum(head) == if key == k then x.amount else 0.0;
      SumConcat(head, Where(rows[1..], [KeyCond(grouping, k)]));
    }
  }

  // ---- The two summary reports ----

  /** The rows `WHERE user_id=?` selects are the user's rows. */
  lemma OwnRows(expenses: seq<Expense>, userId: nat)
    ensures forall e :: e in Where(expenses, [OwnedBy(userId)]) <==> e in expenses && e.userId == userId
  {
    forall e ensures e in Where(expenses, [OwnedBy(userId)]) <==> e in expenses && e.userId == userId {
      WhereCount(expenses, [OwnedBy(userId)], e);
      assert AllHold(e, [OwnedBy(userId)]) <==> Holds(e, [OwnedBy(userId)][0]);
      assert e in Where(expenses, [OwnedBy(userId)]) <==> e in multiset(Where(expenses, [OwnedBy(userId)]));
      assert e in expenses <==> e in multiset(expenses);
    }
  }

  /** `SELECT category, SUM(amount) ... WHERE user_id=? GROUP BY category`: one
      entry per category the user has spent in, holding what was spent there.
      The query has no ORDER BY; the model lists the categories in descending order. */
  function CategorySummary(expenses: seq<Expense>, userId: nat): (r: seq<Total>)
    ensures forall c :: c in Keys(r) <==> exists e :: e in expenses && e.userId == userId && e.category == c
    ensures forall i | 0 <= i < |r| :: r[i].amount == CategoryTotal(expenses, userId, r[i].key, None)
    ensures forall i, j | 0 <= i < j < |r| :: r[i].key != r[j].key
  {
    var mine := Where(expenses, [OwnedBy(userId)]);
    GroupTotalsOrder(mine, ByCategory);
    OwnRows(expenses, userId);
    CategoryEntries(expenses, userId, mine, GroupTotals(mine, ByCategory));
    GroupTotals(mine, ByCategory)
  }

  lemma CategoryEntries(expenses: seq<Expense>, userId: nat, mine: seq<Expense>, r: seq<Total>)
    requires mine == Where(expenses, [OwnedBy(userId)]) && r == GroupTotals(mine, ByCategory)
    ensures forall i | 0 <= i < |r| :: r[i].amount == CategoryTotal(expenses, userId, r[i].key, None)
  {
    GroupTotalsOrder(mine, ByCategory);
    forall i | 0 <= i < |r| ensures r[i].amount == CategoryTotal(expenses, userId, r[i].key, None) {
      var c := r[i].key;
      TotalOfEntry(r, i);
      GroupTotalsSum(mine, ByCategory, c);
      WhereNested(expenses, [OwnedBy(userId)], [CategoryIs(c)]);
      assert CategoryConds(userId, c, None) == [OwnedBy(userId)] + [CategoryIs(c)];
    }
  }

  /** What the user spent in one `YYYY-MM` month. */
  function MonthTotal(expenses: seq<Expense>, userId: nat, month: string): real {
    Sum(Where(expenses, [OwnedBy(userId), MonthIs(month)]))
  }

  /** Every date the user's rows carry is a calendar date. */
  predicate DatesWellFormed(expenses: seq<Expense>, userId: nat) {
    forall e | e in expenses && e.userId == userId :: IsoDate(e.date)
  }

  /** `SELECT strftime('%Y-%m', date) AS month, SUM(amount) ... WHERE user_id=?
      GROUP BY month ORDER BY month DESC`: one entry per month the user has
      spent in, newest month first, holding what was spent that month. */
  function MonthlySummary(expenses: seq<Expense>, userId: nat): (r: seq<Total>)
    requires DatesWellFormed(expenses, userId)
    ensures StrictlyDescending(r)
    ensures forall m :: m in Keys(r) <==>
      exists e :: e in expenses && e.userId == userId && MonthOf(e.date) == m
    ensures forall i | 0 <= i < |r| :: r[i].amount == MonthTotal(expenses, userId, r[i].key)
  {
    var mine := Where(expenses, [OwnedBy(userId)]);
    OwnRows(expenses, userId);
    assert Groupable(mine, ByMonth);
    GroupTotalsOrder(mine, ByMonth);
    MonthEntries(expenses, userId, mine, GroupTotals(mine, ByMonth));
    GroupTotals(mine, ByMonth)
  }

  lemma MonthEntries(expenses: seq<Expense>, userId: nat, mine: seq<Expense>, r: seq<Total>)
    requires mine == Where(expenses, [OwnedBy(userId)]) && Groupable(mine, ByMonth)
    requires r == GroupTotals(mine, ByMonth)
    ensures forall i | 0 <= i < |r| :: r[i].amount == MonthTotal(expenses, userId, r[i].key)
  {
    GroupTotalsOrder(mine, ByMonth);
    forall i | 0 <= i < |r| ensures r[i].amount == MonthTotal(expenses, userId, r[i].key) {
      var m := r[i].key;
      TotalOfEntry(r, i);
      GroupTotalsSum(mine, ByMonth, m);
      WhereNested(expenses, [OwnedBy(userId)], [MonthIs(m)]);
      assert [OwnedBy(userId)] + [MonthIs(m)] == [OwnedBy(userId), MonthIs(m)];
    }
  }

  // ---- The month export ----

  /** A row of the user's dated in the `YYYY-MM` month. */
  predicate InMonth(e: Expense, userId: nat, month: string) {
    e.userId == userId && IsoDate(e.date) && MonthOf(e.date) == month
  }

  /** `SELECT date, amount, category, description FROM expenses
      WHERE strftime('%Y-%m', date)=? AND user_id=? ORDER BY date`: exactly the
      user's rows dated in the month, oldest first. */
  function ExportRows(expenses: seq<Expense>, userId: nat, month: string): (r: seq<Expense>)
    ensures DateOrdered(r, false)
    ensures forall e :: multiset(r)[e] == if InMonth(e, userId, month) then multiset(expenses)[e] else 0
  {
    var conds := [MonthIs(month), OwnedBy(userId)];
    ExportCount(expenses, conds, userId, month);
    SortByDate(Where(expenses, conds), false)
  }

  lemma ExportCount(expenses: seq<Expense>, conds: seq<Cond>, userId: nat, month: string)
    requires conds == [MonthIs(month), OwnedBy(userId)]
    ensures forall e :: multiset(Where(expenses, conds))[e] == if InMonth(e, userId, month) then multiset(expenses)[e] else 0
  {
    forall e ensures multiset(Where(expenses, conds))[e] == if InMonth(e, userId, month) then multiset(expenses)[e] else 0
    {
      WhereCount(expenses, conds, e);
      assert AllHold(e, conds) <==> Holds(e, conds[0]) && Holds(e, conds[1]);
    }
  }

  /** The monthly report's figure for a month is the sum of the rows the export
      of that month lists. */
  lemma MonthTotalMatchesExport(expenses: seq<Expense>, userId: nat, month: string)
    ensures MonthTotal(expenses, userId, month) == Sum(ExportRows(expenses, userId, month))
  {
    var conds := [MonthIs(month), OwnedBy(userId)];
    var mine := [OwnedBy(userId), MonthIs(month)];
    assert forall i | 0 <= i < |expenses| :: AllHold(expenses[i], mine) == AllHold(expenses[i], conds) by {
      forall i | 0 <= i < |expenses| ensures AllHold(expenses[i], mine) == AllHold(expenses[i], conds) {
        assert AllHold(expenses[i], mine) <==> Holds(expenses[i], mine[0]) && Holds(expenses[i], mine[1]);
        assert AllHold(expenses[i], conds) <==> Holds(expenses[i], conds[0]) && Holds(expenses[i], conds[1]);
      }
    }
    WhereAgree(expenses, mine, conds);
    SumPermutation(Where(expenses, conds), ExportRows(expenses, userId, month));
  }

  const HEADER: string := "Date,Amount,Category,Description"

  /** One exported row, fields joined by commas and not escaped; the amount's
      text is the caller's rendering of the number. */
  function CsvRecord(e: Expense, render: real -> string): string {
    e.date + "," + render(e.amount) + "," + e.category + "," + e.description
  }

  function CsvLines(rows: seq<Expense>, render: real -> string): string {
    if rows == [] then "" else CsvRecord(rows[0], render) + "\n" + CsvLines(rows[1..], render)
  }

  /** The export's body: the header line, then one line per exported row. */
  function ExportMonth(expenses: seq<Expense>, userId: nat, month: string, render: real -> string): (csv: string)
    ensures |csv| > |HEADER| && csv[..|HEADER| + 1] == HEADER + "\n"
  {
    var body := CsvLines(ExportRows(expenses, userId, month), render);
    assert (HEADER + "\n" + body)[..|HEADER| + 1] == HEADER + "\n";
    HEADER + "\n" + body
  }

  function Records(rows: seq<Expense>, render: real -> string): seq<string> {
    if rows == [] then [] else [CsvRecord(rows[0], render)] + Records(rows[1..], render)
  }

  predicate NoNewline(e: Expense, render: real -> string) {
    '\n' !in e.date && '\n' !in render(e.amount) && '\n' !in e.category && '\n' !in e.description
  }

  lemma {:induction false} LinesSplit(rows: seq<Expense>, render: real -> string)
    requires forall e | e in rows :: NoNewline(e, render)
    ensures Split(CsvLines(rows, render), '\n') == Records(rows, render) + [""]
  {
    if rows != [] {
      assert rows[0] in rows;
      assert forall e | e in rows[1..] :: e in rows;
      LinesSplit(rows[1..], render);
      SplitAtSeparator(CsvRecord(rows[0], render), '\n', CsvLines(rows[1..], render));
    }
  }

  /** The header line followed by the rows' lines splits into the header and
      one record per row. */
  lemma HeaderThenLines(rows: seq<Expense>, render: real -> string)
    requires forall e | e in rows :: NoNewline(e, render)
    ensures Split(HEADER + "\n" + CsvLines(rows, render), '\n') == [HEADER] + Records(rows, render) + [""]
  {
    LinesSplit(rows, render);
    assert '\n' !in HEADER;
    SplitAtSeparator(HEADER, '\n', CsvLines(rows, render));
  }

  /** Every exported row is one of the user's stored rows dated in the month. */
  lemma ExportedRowsAreOwn(expenses: seq<Expense>, userId: nat, month: string)
    ensures forall e | e in ExportRows(expenses, userId, month) :: e in expenses && InMonth(e, userId, month)
  {
    var rows := ExportRows(expenses, userId, month);
    forall e | e in rows ensures e in expenses && InMonth(e, userId, month) {
      assert multiset(rows)[e] > 0;
    }
  }

  /** Read back line by line, the export is the header and then one record per
      exported row in export order, provided no field holds a line break. */
  lemma ExportLines(expenses: seq<Expense>, userId: nat, month: string, render: real -> string)
    requires forall e | e in expenses && InMonth(e, userId, month) :: NoNewline(e, render)
    ensures Split(ExportMonth(expenses, userId, month, render), '\n') ==
      [HEADER] + Records(ExportRows(expenses, userId, month), render) + [""]
  {
    var rows := ExportRows(expenses, userId, month);
    ExportedRowsAreOwn(expenses, userId, month);
    HeaderThenLines(rows, render);
  }

  /** A record whose fields hold no comma splits back into exactly its four fields. */
  lemma RecordFields(e: Expense, render: real -> string)
    requires ',' !in e.date && ',' !in render(e.amount) && ',' !in e.category && ',' !in e.description
    ensures Split(CsvRecord(e, render), ',') == [e.date, render(e.amount), e.category, e.description]
  {
    var amount := render(e.amount);
    SplitNoSeparator(e.description, ',');
    SplitAtSeparator(e.category, ',', e.description);
    assert e.category + "," + e.description == e.category + [','] + e.description;
    SplitAtSeparator(amount, ',', e.category + "," + e.description);
    assert amount + "," + e.category + "," + e.description == amount + [','] + (e.category + "," + e.description);
    SplitAtSeparator(e.date, ',', amount + "," + e.category + "," + e.description);
    assert CsvRecord(e, render) == e.date + [','] + (amount + "," + e.category + "," + e.description);
  }

  lemma {:induction false} SplitSeparatorCount(s: string, sep: char)
    requires sep in s
    ensures |Split(s, sep)| >= 2
  {
    if s[0] != sep {
      SplitSeparatorCount(s[1..], sep);
    }
  }

  /** Fields are not escaped: a comma inside a description gives the record
      more than the four fields the header names. */
  lemma CommaInDescriptionAddsField(e: Expense, render: real -> string)
    requires ',' !in e.date && ',' !in render(e.amount) && ',' !in e.category && ',' in e.description
    ensures |Split(CsvRecord(e, render), ',')| > 4
  {
    var amount := render(e.amount);
    SplitSeparatorCount(e.description, ',');
    SplitAtSeparator(e.category, ',', e.description);
    assert e.category + "," + e.description == e.category + [','] + e.description;
    SplitAtSeparator(amount, ',', e.category + "," + e.description);
    assert amount + "," + e.category + "," + e.description == amount + [','] + (e.category + "," + e.description);
    SplitAtSeparator(e.date, ',', amount + "," + e.category + "," + e.description);
    assert CsvRecord(e, render) == e.date + [','] + (amount + "," + e.category + "," + e.description);
  }
}
