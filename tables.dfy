/**
 * The three tables of the expense database (users, expenses, limits), the
 * facts the database keeps about them, and the single-row lookups the routes
 * perform before they write.
 */
module Tables {

  datatype Option<+T> = None | Some(value: T)

  /** A row of `users`: surrogate id, unique user name, password kept verbatim. */
  datatype User = User(id: nat, username: string, password: string)

  /** A row of `expenses`, owned by the user `userId`; amounts are exact. */
  datatype Expense = Expense(
    id: nat,
    userId: nat,
    amount: real,
    category: string,
    description: string,
    date: string)

  /** A row of `limits`: the ceiling `amount` on what `userId` spends in `category`. */
  datatype Limit = Limit(id: nat, userId: nat, category: string, amount: real)

  /** The fields an add or edit form submits for an expense. */
  datatype Entry = Entry(amount: real, category: string, description: string, date: string)

  /** The row an accepted add inserts, with the id the database hands out. */
  function NewExpense(id: nat, userId: nat, entry: Entry): Expense {
    Expense(id, userId, entry.amount, entry.category, entry.description, entry.date)
  }

  // ---- What AUTOINCREMENT and the UNIQUE constraint guarantee ----

  /** Ids are handed out in increasing order from 1 and never reused, so every
      id is below the next one to be handed out and rows stay in id order. */
  predicate UsersTable(users: seq<User>, nextId: nat) {
    && 1 <= nextId
    && (forall i | 0 <= i < |users| :: 1 <= users[i].id < nextId)
    && (forall i, j | 0 <= i < j < |users| :: users[i].id < users[j].id)
    && (forall i, j | 0 <= i < j < |users| :: users[i].username != users[j].username)
  }

  predicate IdsIncrease(expenses: seq<Expense>) {
    forall i, j | 0 <= i < j < |expenses| :: expenses[i].id < expenses[j].id
  }

  predicate ExpensesTable(expenses: seq<Expense>, nextId: nat) {
    && 1 <= nextId
    && (forall i | 0 <= i < |expenses| :: 1 <= expenses[i].id < nextId)
    && IdsIncrease(expenses)
  }

  /** Increasing ids are distinct: an id names at most one row. */
  lemma IdNamesOneRow(expenses: seq<Expense>, k: nat, j: nat)
    requires IdsIncrease(expenses) && k < |expenses| && j < |expenses|
    requires expenses[k].id == expenses[j].id
    ensures k == j
  {
  }

  /** Below the first row of an increasing table, the rest increase and all
      have larger ids. */
  lemma IdsIncreaseTail(expenses: seq<Expense>)
    requires IdsIncrease(expenses) && expenses != []
    ensures IdsIncrease(expenses[1..])
    ensures forall x | x in expenses[1..] :: expenses[0].id < x.id
  {
    forall x | x in expenses[1..] ensures expenses[0].id < x.id {
      var i :| 0 <= i < |expenses[1..]| && expenses[1..][i] == x;
      assert expenses[i + 1] == x;
    }
  }

  /** A row whose id is below every id of an increasing table can head it. */
  lemma IdsIncreasePrepend(e: Expense, rest: seq<Expense>)
    requires IdsIncrease(rest)
    requires forall x | x in rest :: e.id < x.id
    ensures IdsIncrease([e] + rest)
  {
    var r := [e] + rest;
    forall i, j | 0 <= i < j < |r| ensures r[i].id < r[j].id {
      assert r[j] == rest[j - 1] && r[j] in rest;
      if i > 0 {
        assert r[i] == rest[i - 1];
      }
    }
  }

  /** At most one limit row per (user, category): kept by the upsert, not by the schema. */
  predicate OneLimitPerPair(limits: seq<Limit>) {
    forall i, j | 0 <= i < j < |limits| ::
      limits[i].userId != limits[j].userId || limits[i].category != limits[j].category
  }

  predicate LimitsTable(limits: seq<Limit>, nextId: nat) {
    && 1 <= nextId
    && (forall i | 0 <= i < |limits| :: 1 <= limits[i].id < nextId)
    && (forall i, j | 0 <= i < j < |limits| :: limits[i].id < limits[j].id)
    && OneLimitPerPair(limits)
  }

  // ---- Single-row lookups ----

  predicate HasUsername(users: seq<User>, username: string) {
    exists i | 0 <= i < |users| :: users[i].username == username
  }

  /** `SELECT * FROM users WHERE username=? AND password=?` then `fetchone()`:
      the id of the first row matching both, if any. */
  function Login(users: seq<User>, username: string, password: string): (r: Option<nat>)
    ensures r.Some? <==>
      exists i | 0 <= i < |users| :: users[i].username == username && users[i].password == password
    ensures r.Some? ==>
      exists i | 0 <= i < |users| ::
        users[i].id == r.value && users[i].username == username && users[i].password == password
  {
    if users == [] then None
    else if users[0].username == username && users[0].password == password then Some(users[0].id)
    else Login(users[1..], username, password)
  }

  /** Login identifies the account: with unique user names, a login succeeds
      exactly when the password stored for that name is the one given, and it
      yields that account's id. */
  lemma {:induction false} LoginFindsAccount(users: seq<User>, nextId: nat, k: nat, password: string)
    requires UsersTable(users, nextId)
    requires k < |users|
    ensures Login(users, users[k].username, password) ==
      if users[k].password == password then Some(users[k].id) else None
  {
    if k > 0 {
      assert users[0].username != users[k].username;
      assert users[1..][k - 1] == users[k];
      LoginFindsAccount(users[1..], nextId, k - 1, password);
    }
  }

  /** A newly registered account keeps the users table well formed and can
      log in with the password it registered. */
  lemma LoginAfterRegister(users: seq<User>, nextId: nat, username: string, password: string)
    requires UsersTable(users, nextId) && !HasUsername(users, username)
    ensures UsersTable(users + [User(nextId, username, password)], nextId + 1)
    ensures Login(users + [User(nextId, username, password)], username, password) == Some(nextId)
  {
    var extended := users + [User(nextId, username, password)];
    assert forall i | 0 <= i < |users| :: extended[i] == users[i];
    assert UsersTable(extended, nextId + 1);
    LoginFindsAccount(extended, nextId + 1, |users|, password);
  }

  /** `SELECT limit_amount FROM limits WHERE user_id=? AND category=?` then
      `fetchone()`: the first matching row's ceiling, if any. */
  function LimitFor(limits: seq<Limit>, userId: nat, category: string): (r: Option<real>)
    ensures r.None? <==>
      forall i | 0 <= i < |limits| :: limits[i].userId != userId || limits[i].category != category
    ensures r.Some? ==>
      exists i | 0 <= i < |limits| ::
        limits[i].userId == userId && limits[i].category == category && limits[i].amount == r.value
  {
    if limits == [] then None
    else if limits[0].userId == userId && limits[0].category == category then Some(limits[0].amount)
    else LimitFor(limits[1..], userId, category)
  }

  /** With one limit per pair, the lookup returns that pair's row whatever its position. */
  lemma {:induction false} LimitForRow(limits: seq<Limit>, k: nat)
    requires OneLimitPerPair(limits) && k < |limits|
    ensures LimitFor(limits, limits[k].userId, limits[k].category) == Some(limits[k].amount)
  {
    if k > 0 {
      assert limits[1..][k - 1] == limits[k];
      LimitForRow(limits[1..], k - 1);
    }
  }

  /** `SELECT * FROM expenses WHERE id=? AND user_id=?` then `fetchone()`: the
      row with that id, provided the caller owns it. */
  function FindOwned(expenses: seq<Expense>, id: nat, userId: nat): (r: Option<Expense>)
    ensures r.Some? <==>
      exists i | 0 <= i < |expenses| :: expenses[i].id == id && expenses[i].userId == userId
    ensures r.Some? ==> r.value in expenses && r.value.id == id && r.value.userId == userId
  {
    if expenses == [] then None
    else if expenses[0].id == id && expenses[0].userId == userId then Some(expenses[0])
    else FindOwned(expenses[1..], id, userId)
  }
}
