/**
 * `auth.authenticate_user`: look the user up by username and user type
 * (and activity, once the `is_active` column exists), then compare the
 * stored password with the one given.
 */
module Auth {
  import opened Wrappers
  import opened Lists
  import opened Schema
  import Database

  /** The `WHERE username = ? AND user_type = ? [AND is_active = 1]` condition. */
  function Candidate(table: UsersTable, username: string, userType: string): User -> bool {
    (u: User) => u.username == username && u.userType == userType && (table.hasIsActiveColumn ==> u.isActive == 1)
  }

  /**
   * The user found by username and type (`admin` unless another type is
   * given), provided its stored password equals `password`; None when no user
   * matches, when the password differs, or when the table cannot be read.
   */
  function Authenticate(table: Option<UsersTable>, username: string, password: string, userType: string := "admin"): (r: Option<User>)
    ensures r.Some? ==> table.Some? && r.value in table.value.rows
    ensures r.Some? ==> r.value.username == username && r.value.userType == userType
    ensures r.Some? ==> r.value.passwordHash == password
    ensures r.Some? && table.value.hasIsActiveColumn ==> r.value.isActive == 1
    ensures table.None? ==> r.None?
  {
    match table
    case None => None
    case Some(t) =>
      match First(t.rows, Candidate(t, username, userType))
      case None => None
      case Some(u) => if u.passwordHash == password then Some(u) else None
  }

  /** Under the UNIQUE username constraint, the first row satisfying a condition that fixes the username is the row with that username. */
  lemma FirstByUsername(rows: seq<User>, p: User -> bool, i: int)
    requires Database.UniqueUsernames(rows) && 0 <= i < |rows| && p(rows[i])
    requires forall k :: 0 <= k < |rows| && p(rows[k]) ==> rows[k].username == rows[i].username
    ensures First(rows, p) == Some(rows[i])
  {
    var r := First(rows, p);
    assert r.Some?;
    var j :| 0 <= j < |rows| && rows[j] == r.value && forall k :: 0 <= k < j ==> !p(rows[k]);
    assert i >= j;
    assert rows[j].username == rows[i].username;
  }

  /** Under the UNIQUE username constraint, a user whose username, type, activity and password all match is returned. */
  lemma AuthenticateComplete(table: UsersTable, username: string, password: string, userType: string, i: int)
    requires Database.UniqueUsernames(table.rows) && 0 <= i < |table.rows|
    requires Candidate(table, username, userType)(table.rows[i]) && table.rows[i].passwordHash == password
    ensures Authenticate(Some(table), username, password, userType) == Some(table.rows[i])
  {
    FirstByUsername(table.rows, Candidate(table, username, userType), i);
  }

  /** An unknown username and a wrong password give the same answer, None. */
  lemma AuthenticateRejects(table: UsersTable, username: string, password: string, userType: string)
    requires forall i :: 0 <= i < |table.rows| && table.rows[i].username == username ==> table.rows[i].passwordHash != password
    ensures Authenticate(Some(table), username, password, userType).None?
  {
  }

  /**
   * The two authentication routines agree on who may log in: a user `auth`
   * returns is the one `database.authenticate_user` returns, and a user the
   * latter returns is returned by `auth` when asked for that user's type.
   */
  lemma AuthenticateAgreesWithDatabase(table: UsersTable, username: string, password: string, userType: string)
    requires Database.UniqueUsernames(table.rows)
    ensures Authenticate(Some(table), username, password, userType).Some? ==>
      Database.AuthenticateUser(Some(table), username, password) == Authenticate(Some(table), username, password, userType)
    ensures Database.AuthenticateUser(Some(table), username, password).Some? ==>
      var u := Database.AuthenticateUser(Some(table), username, password).value;
      Authenticate(Some(table), username, password, u.userType) == Some(u)
  {
    var r := Authenticate(Some(table), username, password, userType);
    if r.Some? {
      var i :| 0 <= i < |table.rows| && table.rows[i] == r.value;
      FirstByUsername(table.rows, Database.MatchesLogin(table, username, password), i);
    }
    var d := Database.AuthenticateUser(Some(table), username, password);
    if d.Some? {
      var i :| 0 <= i < |table.rows| && table.rows[i] == d.value;
      AuthenticateComplete(table, username, password, d.value.userType, i);
    }
  }

  /**
   * The administrator `init_db` adds to a users table that has no `admin`
   * logs in with the default password and the default user type.
   */
  lemma DefaultAdminLogsIn(users: seq<User>, hasIsActiveColumn: bool, now: Timestamp)
    requires Database.UniqueUsernames(users) && !Database.HasUser(users, "admin")
    ensures var table := UsersTable(users + [Database.AdminUser(now)], hasIsActiveColumn);
      Authenticate(Some(table), "admin", "admin123") == Some(Database.AdminUser(now))
  {
    var rows := users + [Database.AdminUser(now)];
    forall i, j | 0 <= i < j < |rows| ensures rows[i].username != rows[j].username {
      if j == |users| {
        assert rows[i] == users[i];
      } else {
        assert rows[i] == users[i] && rows[j] == users[j];
      }
    }
    AuthenticateComplete(UsersTable(rows, hasIsActiveColumn), "admin", "admin123", "admin", |users|);
  }
}
