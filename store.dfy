/** The PostgreSQL tables the handlers read and write, as maps keyed by their
    primary key: `users` by id, `login_attempts` by username, `sessions` by
    session id, `user_roles` by user id, `roles` by id, `profiles` by user id.
    Timestamps are integers counting milliseconds. */
module Store {
  import opened Wrappers

  /** A `users` row: the username, the stored password hash and the lock fields. */
  datatype User = User(username: string, password: string, isLocked: bool, unlockTime: Option<int>)

  /** A `login_attempts` row: failures counted and the time of the last one. */
  datatype Attempt = Attempt(attempts: int, lastAttempt: int)

  /** A `sessions` row. */
  datatype Session = Session(userId: int, expiresAt: int)

  /** A `profiles` row; every column may hold NULL. */
  datatype Profile = Profile(
    bio: Option<string>,
    firstName: Option<string>,
    lastName: Option<string>,
    email: Option<string>,
    phone: Option<string>,
    website: Option<string>)

  /** The whole store as a value. `nextUserId` is the next value of the serial
      sequence behind `users.id`. */
  datatype Db = Db(
    users: map<int, User>,
    loginAttempts: map<string, Attempt>,
    sessions: map<string, Session>,
    userRoles: map<int, int>,
    roles: map<int, string>,
    profiles: map<int, Profile>,
    nextUserId: int)

  /** The range of PostgreSQL's `integer` type, the type of `users.id` and
      `profiles.user_id`: a parameter outside it makes the query fail. */
  const Int4Min: int := -0x8000_0000
  const Int4Max: int := 0x7FFF_FFFF

  predicate IsInt4(n: int) {
    Int4Min <= n <= Int4Max
  }

  /** The unique constraint on `users.username`. */
  ghost predicate UniqueUsernames(users: map<int, User>) {
    forall i, j | i in users && j in users && users[i].username == users[j].username :: i == j
  }

  /** The constraints the database keeps: unique usernames, ids drawn from the
      serial sequence, and role assignments only for existing users. */
  ghost predicate Consistent(db: Db) {
    && UniqueUsernames(db.users)
    && (forall id | id in db.users :: id < db.nextUserId)
    && db.userRoles.Keys <= db.users.Keys
  }

  /** `SELECT ... FROM users WHERE username = $1`: the id of the one row with
      that username, if any. */
  function FindUser(users: map<int, User>, name: string): (r: Option<int>)
    requires UniqueUsernames(users)
    ensures r.Some? ==> r.value in users && users[r.value].username == name
    ensures r.None? <==> forall id | id in users :: users[id].username != name
  {
    if exists id | id in users :: users[id].username == name then
      var id :| id in users && users[id].username == name;
      Some(id)
    else
      None
  }

  /** The same store as a mutable object: the handlers update its tables in place. */
  class Database {
    var users: map<int, User>
    var loginAttempts: map<string, Attempt>
    var sessions: map<string, Session>
    var userRoles: map<int, int>
    var roles: map<int, string>
    var profiles: map<int, Profile>
    var nextUserId: int

    /** The current contents of every table. */
    function Tables(): Db
      reads this
    {
      Db(users, loginAttempts, sessions, userRoles, roles, profiles, nextUserId)
    }

    ghost predicate Valid()
      reads this
    {
      Consistent(Tables())
    }

    /** A connection to a store holding `db`. */
    constructor (db: Db)
      requires Consistent(db)
      ensures Valid() && Tables() == db
    {
      users, loginAttempts, sessions := db.users, db.loginAttempts, db.sessions;
      userRoles, roles, profiles, nextUserId := db.userRoles, db.roles, db.profiles, db.nextUserId;
    }
  }
}
