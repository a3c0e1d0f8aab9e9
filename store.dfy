/**
 * The expense store as the routes change it: the three tables and the next
 * AUTOINCREMENT id of each, updated in place by register, add, edit, delete
 * and set-limit, and read by the filtered listing. The signed-in user's id is
 * passed to each operation; sessions are outside the store.
 */
module Store {
  import opened Text
  import opened Tables
  import opened Queries

  /** What a write route reports back. */
  datatype Status =
    | Done
    | UsernameTaken                                // the UNIQUE constraint on user names
    | NotAllowed                                   // no such expense, or not the caller's (HTTP 403)
    | LimitExceeded(category: string, limit: real) // the message naming the category and its ceiling

  class ExpenseStore {
    var users: seq<User>
    var expenses: seq<Expense>
    var limits: seq<Limit>
    var nextUserId: nat
    var nextExpenseId: nat
    var nextLimitId: nat

    /** The facts the database keeps about its tables. */
    ghost predicate Valid()
      reads this
    {
      && UsersTable(users, nextUserId)
      && ExpensesTable(expenses, nextExpenseId)
      && LimitsTable(limits, nextLimitId)
    }

    /** A fresh database: empty tables whose ids start at 1. */
    constructor ()
      ensures Valid()
      ensures users == [] && expenses == [] && limits == []
      ensures nextUserId == 1 && nextExpenseId == 1 && nextLimitId == 1
    {
      users := [];
      expenses := [];
      limits := [];
      nextUserId := 1;
      nextExpenseId := 1;
      nextLimitId := 1;
    }

    /** The register route: insert the account unless the name is taken; the
        new account can then log in with the password it chose. */
    method Register(username: string, password: string) returns (s: Status)
      requires Valid()
      modifies this
      ensures Valid()
      ensures s == if HasUsername(old(users), username) then UsernameTaken else Done
      ensures s == UsernameTaken ==> unchanged(this)
      ensures s == Done ==>
        && users == old(users) + [User(old(nextUserId), username, password)]
        && nextUserId == old(nextUserId) + 1
        && expenses == old(expenses) && limits == old(limits)
        && nextExpenseId == old(nextExpenseId) && nextLimitId == old(nextLimitId)
      ensures s == Done ==> Login(users, username, password) == Some(old(nextUserId))
    {
      if HasUsername(users, username) {
        return UsernameTaken;
      }
      LoginAfterRegister(users, nextUserId, username, password);
      users := users + [User(nextUserId, username, password)];
      nextUserId := nextUserId + 1;
      s := Done;
    }

    /** The add route: refuse the expense when a limit exists for the category
        and what the user has spent there plus the new amount exceeds it,
        otherwise insert it under the next id. Adding never breaks a limit that held. */
    method Add(userId: nat, entry: Entry) returns (s: Status)
      requires Valid()
      modifies this
      ensures Valid()
      ensures s == if OverLimit(old(expenses), limits, userId, entry.category, entry.amount, None)
                   then LimitExceeded(entry.category, LimitFor(limits, userId, entry.category).value)
                   else Done
      ensures s != Done ==> unchanged(this)
      ensures s == Done ==>
        && expenses == old(expenses) + [NewExpense(old(nextExpenseId), userId, entry)]
        && nextExpenseId == old(nextExpenseId) + 1
        && users == old(users) && limits == old(limits)
        && nextUserId == old(nextUserId) && nextLimitId == old(nextLimitId)
      ensures KeepsLimits(old(expenses), expenses, limits)
    {
      var limit := LimitFor(limits, userId, entry.category);
      if limit.Some? {
        var current := Sum(Where(expenses, CategoryConds(userId, entry.category, None)));
        if current + entry.amount > limit.value {
          return LimitExceeded(entry.category, limit.value);
        }
      }
      AddKeepsWithinLimits(expenses, limits, userId, entry, nextExpenseId);
      expenses := expenses + [NewExpense(nextExpenseId, userId, entry)];
      nextExpenseId := nextExpenseId + 1;
      s := Done;
    }

    /** The edit route: refuse an expense the caller does not own; refuse the
        new values when a limit exists for the new category and what the user
        has spent there, apart from this expense, plus the new amount exceeds
        it; otherwise overwrite the expense's fields. An edit breaks no limit
        that held unless the edited expense's old amount was negative. */
    method Edit(userId: nat, id: nat, entry: Entry) returns (s: Status)
      requires Valid()
      modifies this
      ensures Valid()
      ensures s == NotAllowed <==> FindOwned(old(expenses), id, userId).None?
      ensures FindOwned(old(expenses), id, userId).Some? ==>
        s == if OverLimit(old(expenses), limits, userId, entry.category, entry.amount, Some(id))
             then LimitExceeded(entry.category, LimitFor(limits, userId, entry.category).value)
             else Done
      ensures s != Done ==> unchanged(this)
      ensures s == Done ==>
        && expenses == Revised(old(expenses), id, userId, entry)
        && users == old(users) && limits == old(limits)
        && nextUserId == old(nextUserId) && nextExpenseId == old(nextExpenseId) && nextLimitId == old(nextLimitId)
      ensures (FindOwned(old(expenses), id, userId).Some? ==> FindOwned(old(expenses), id, userId).value.amount >= 0.0)
        ==> KeepsLimits(old(expenses), expenses, limits)
    {
      s := CheckEdit(userId, id, entry);
      if s == Done {
        RevisedKeepsTable(expenses, id, userId, entry, nextExpenseId);
        if FindOwned(expenses, id, userId).value.amount >= 0.0 {
          AcceptedEditKeepsLimits(expenses, limits, id, userId, entry);
        }
        expenses := Revised(expenses, id, userId, entry);
      }
    }

    /** The edit route's reads before its write: the caller's row with that
        id, then the limit for the new category against what the user has
        spent there apart from this row. Done means the update may go ahead. */
    method CheckEdit(userId: nat, id: nat, entry: Entry) returns (s: Status)
      ensures s == NotAllowed <==> FindOwned(expenses, id, userId).None?
      ensures FindOwned(expenses, id, userId).Some? ==>
        s == if OverLimit(expenses, limits, userId, entry.category, entry.amount, Some(id))
             then LimitExceeded(entry.category, LimitFor(limits, userId, entry.category).value)
             else Done
    {
      var expense := FindOwned(expenses, id, userId);
      if expense.None? {
        return NotAllowed;
      }
      var limit := LimitFor(limits, userId, entry.category);
      if limit.Some? {
        var current := Sum(Where(expenses, CategoryConds(userId, entry.category, Some(id))));
        if current + entry.amount > limit.value {
          return LimitExceeded(entry.category, limit.value);
        }
      }
      s := Done;
    }

    /** The delete route: remove the caller's expense with that id; anything
        else (no such id, another user's expense) is left alone. */
    method Delete(userId: nat, id: nat)
      requires Valid()
      modifies this
      ensures Valid()
      ensures expenses == Deleted(old(expenses), id, userId)
      ensures FindOwned(old(expenses), id, userId).None? ==> expenses == old(expenses)
      ensures FindOwned(old(expenses), id, userId).Some? ==>
        exists k | 0 <= k < |old(expenses)| ::
          old(expenses)[k].id == id && expenses == old(expenses)[..k] + old(expenses)[k + 1..]
      ensures users == old(users) && limits == old(limits)
      ensures nextUserId == old(nextUserId) && nextExpenseId == old(nextExpenseId) && nextLimitId == old(nextLimitId)
      ensures (FindOwned(old(expenses), id, userId).Some? ==> FindOwned(old(expenses), id, userId).value.amount >= 0.0)
        ==> KeepsLimits(old(expenses), expenses, limits)
    {
      var expense := FindOwned(expenses, id, userId);
      if expense.Some? {
        var k :| 0 <= k < |expenses| && expenses[k] == expense.value;
        DeleteRemovesOne(expenses, k);
      }
      DeletedKeepsTable(expenses, id, userId, nextExpenseId);
      if expense.Some? ==> expense.value.amount >= 0.0 {
        forall e | e in expenses && e.id == id && e.userId == userId ensures e.amount >= 0.0 {
          var k :| 0 <= k < |expenses| && expenses[k] == e;
          var j :| 0 <= j < |expenses| && expenses[j] == expense.value;
          IdNamesOneRow(expenses, k, j);
        }
        DeleteKeepsWithinLimits(expenses, limits, id, userId);
      }
      expenses := Deleted(expenses, id, userId);
    }

    /** The set-limit route: overwrite the ceiling for the pair when one is
        stored, otherwise insert one under the next id. */
    method SetLimit(userId: nat, category: string, amount: real)
      requires Valid()
      modifies this
      ensures Valid()
      ensures limits == Upserted(old(limits), userId, category, amount, old(nextLimitId))
      ensures nextLimitId == if LimitFor(old(limits), userId, category).Some? then old(nextLimitId) else old(nextLimitId) + 1
      ensures LimitFor(limits, userId, category) == Some(amount)
      ensures forall u, c | u != userId || c != category :: LimitFor(limits, u, c) == LimitFor(old(limits), u, c)
      ensures users == old(users) && expenses == old(expenses)
      ensures nextUserId == old(nextUserId) && nextExpenseId == old(nextExpenseId)
    {
      var existing := LimitFor(limits, userId, category);
      UpsertedKeepsTable(limits, userId, category, amount, nextLimitId);
      if existing.Some? {
        limits := Overwritten(limits, userId, category, amount);
      } else {
        limits := limits + [Limit(nextLimitId, userId, category, amount)];
        nextLimitId := nextLimitId + 1;
      }
    }

    /** The listing route: the caller's expenses meeting every given filter,
        newest date first, and their total from the matching SUM query. The
        WHERE clause grows one conjunct per given filter. */
    method Home(userId: nat, f: Filter) returns (rows: seq<Expense>, total: real)
      ensures forall e :: multiset(rows)[e] == if Selected(e, userId, f) then multiset(expenses)[e] else 0
      ensures DateOrdered(rows, true)
      ensures total == Sum(rows)
      ensures rows == [] ==> total == 0.0
    {
      var conds := [OwnedBy(userId)];
      assert forall e :: AllHold(e, conds) <==> e.userId == userId by {
        assert forall e :: AllHold(e, conds) <==> Holds(e, conds[0]);
      }
      if Given(f.category) {
        AllHoldAppend(conds, CategoryIs(f.category.value));
        conds := conds + [CategoryIs(f.category.value)];
      }
      if Given(f.fromDate) {
        AllHoldAppend(conds, DateFrom(f.fromDate.value));
        conds := conds + [DateFrom(f.fromDate.value)];
      }
      if Given(f.toDate) {
        AllHoldAppend(conds, DateTo(f.toDate.value));
        conds := conds + [DateTo(f.toDate.value)];
      }
      assert forall e :: AllHold(e, conds) <==> Selected(e, userId, f);
      var selected := Where(expenses, conds);
      rows := SortByDate(selected, true);
      total := Sum(selected);
      forall e ensures multiset(rows)[e] == if Selected(e, userId, f) then multiset(expenses)[e] else 0 {
        WhereCount(expenses, conds, e);
      }
      SumPermutation(selected, rows);
    }
  }

  /** One more conjunct narrows a WHERE clause by exactly that conjunct. */
  lemma AllHoldAppend(conds: seq<Cond>, c: Cond)
    ensures forall e :: AllHold(e, conds + [c]) <==> AllHold(e, conds) && Holds(e, c)
  {
    forall e ensures AllHold(e, conds + [c]) <==> AllHold(e, conds) && Holds(e, c) {
      assert forall i | 0 <= i < |conds| :: (conds + [c])[i] == conds[i];
      assert (conds + [c])[|conds|] == c;
    }
  }

  /** A user with a ceiling of 100 on food who has spent 80 there cannot add
      25 more (105 is over the ceiling) but can add 20 (exactly at the ceiling). */
  method LimitScenario() returns (first: Status, over: Status, atCeiling: Status)
    ensures first == Done
    ensures over == LimitExceeded("food", 100.0)
    ensures atCeiling == Done
  {
    var store := SignUpWithCeiling();
    assert LimitFor(store.limits, 1, "food") == Some(100.0);
    first := store.Add(1, Entry(80.0, "food", "groceries", "2024-05-02"));
    assert first == Done by {
      assert Where([], CategoryConds(1, "food", None)) == [];
    }
    var groceries := Expense(1, 1, 80.0, "food", "groceries", "2024-05-02");
    assert store.expenses == [groceries];
    OneRowTotal(groceries);
    over := store.Add(1, Entry(25.0, "food", "dinner", "2024-05-03"));
    atCeiling := store.Add(1, Entry(20.0, "food", "lunch", "2024-05-04"));
  }

  /** A fresh database where the account "asha" (id 1) registered and set a
      ceiling of 100 on food. */
  method SignUpWithCeiling() returns (store: ExpenseStore)
    ensures fresh(store) && store.Valid()
    ensures store.expenses == [] && store.nextExpenseId == 1
    ensures store.limits == [Limit(1, 1, "food", 100.0)]
  {
    store := new ExpenseStore();
    var registered := store.Register("asha", "secret");
    assert registered == Done && store.users == [User(1, "asha", "secret")];
    store.SetLimit(1, "food", 100.0);
  }

  /** What the user has spent in a category, for a table of one row of theirs there. */
  lemma OneRowTotal(e: Expense)
    ensures CategoryTotal([e], e.userId, e.category, None) == e.amount
  {
    var conds := CategoryConds(e.userId, e.category, None);
    assert conds == [OwnedBy(e.userId), CategoryIs(e.category)];
    assert AllHold(e, conds);
    assert [e][1..] == [];
    assert Where([e], conds) == [e] + Where([], conds);
    assert Sum([e]) == e.amount + Sum([]);
  }
}
