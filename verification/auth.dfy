/**
 * The credential and session operations of the database manager, over an
 * in-memory picture of its two tables: `users`, keyed by the unique
 * username, and `sessions`, keyed by the token. The password digest is a
 * caller-supplied function, and so are the clock reading and the fresh token.
 */
module Auth {
  import opened Wrappers

  /** How long a session lasts: one hour, in milliseconds. */
  const SessionTtlMillis: int := 3600 * 1000

  /** A row of `users`, less the username that keys it. */
  datatype UserRow = UserRow(userId: int, name: string, digest: string, role: string)

  /** A row of `sessions`, less the token that keys it; `expiry` is in milliseconds. */
  datatype SessionRow = SessionRow(userId: int, expiry: int)

  /** Both tables, and the next value of the user-id sequence. */
  datatype Db = Db(users: map<string, UserRow>, sessions: map<string, SessionRow>, nextUserId: int)

  /** The user object handed back by session validation. */
  datatype User = User(userId: int, name: string, username: string, password: string, role: string)

  /** The checked exceptions of the credential operations. */
  datatype AuthError = UserAlreadyExists | UserNotFound | InvalidPassword | SessionExpired

  /** The outcome of an operation together with the tables after it. */
  datatype Step<+T> = Step(result: Result<T, AuthError>, db: Db)

  const EmptyDb: Db := Db(map[], map[], 1)

  /** Every user id in use. */
  function UserIds(users: map<string, UserRow>): set<int> {
    set u | u in users :: users[u].userId
  }

  /** Every user id is below the sequence's next value. */
  ghost predicate IdsBelowNext(db: Db) {
    forall u :: u in db.users ==> db.users[u].userId < db.nextUserId
  }

  /** No two usernames share a user id. */
  ghost predicate IdsUnique(users: map<string, UserRow>) {
    forall u, v :: u in users && v in users && users[u].userId == users[v].userId ==> u == v
  }

  /** Every session belongs to an existing user. */
  ghost predicate SessionsOwned(db: Db) {
    forall t :: t in db.sessions ==> db.sessions[t].userId in UserIds(db.users)
  }

  /** The table invariants the operations keep. */
  ghost predicate Valid(db: Db) {
    IdsBelowNext(db) && IdsUnique(db.users) && SessionsOwned(db)
  }

  /** `verifyPassword`: the digest of the offered password is the stored one. */
  function VerifyPassword(hash: string -> string, password: string, digest: string): (ok: bool)
    ensures digest == hash(password) ==> ok
    ensures ((forall a, b :: hash(a) == hash(b) ==> a == b) &&
             (exists other :: other != password && digest == hash(other)))
            ==> !ok
  {
    hash(password) == digest
  }

  /** The digest of a password is always accepted for that password. */
  lemma VerifyAcceptsOwnDigest(hash: string -> string, password: string)
    ensures VerifyPassword(hash, password, hash(password))
  {
  }

  /** Under an idealised, collision-free digest, a password is refused against the digest of any other password. */
  lemma VerifyRejectsOtherDigest(hash: string -> string, password: string, other: string)
    requires forall a, b :: hash(a) == hash(b) ==> a == b
    requires password != other
    ensures !VerifyPassword(hash, password, hash(other))
  {
  }

  /** `registerUser`: refuse a taken username, otherwise add one user holding the password's digest. */
  function Register(db: Db, hash: string -> string, name: string, username: string,
                    password: string, role: string): (st: Step<()>)
    ensures username in db.users ==> st == Step(Err(UserAlreadyExists), db)
    ensures username !in db.users ==>
      && st.result.Ok?
      && st.db.users.Keys == db.users.Keys + {username}
      && st.db.users[username].digest == hash(password)
      && st.db.users[username].name == name
      && st.db.users[username].role == role
      && (forall u :: u in db.users ==> st.db.users[u] == db.users[u])
      && st.db.sessions == db.sessions
  {
    if username in db.users then Step(Err(UserAlreadyExists), db)
    else
      var row := UserRow(db.nextUserId, name, hash(password), role);
      Step(Ok(()), db.(users := db.users[username := row], nextUserId := db.nextUserId + 1))
  }

  /**
   * `loginUser`: find the user, check the password, then open a session that
   * expires one hour after `now` under the fresh `token`, and return the token.
   */
  function Login(db: Db, hash: string -> string, username: string, password: string,
                 now: int, token: string): (st: Step<string>)
    requires token !in db.sessions
    ensures username !in db.users ==> st == Step(Err(UserNotFound), db)
    ensures username in db.users && hash(password) != db.users[username].digest ==>
      st == Step(Err(InvalidPassword), db)
    ensures username in db.users && hash(password) == db.users[username].digest ==>
      && st.result == Ok(token)
      && st.db.users == db.users
      && st.db.nextUserId == db.nextUserId
      && st.db.sessions.Keys == db.sessions.Keys + {token}
      && st.db.sessions[token] == SessionRow(db.users[username].userId, now + SessionTtlMillis)
      && (forall t :: t in db.sessions ==> st.db.sessions[t] == db.sessions[t])
  {
    if username !in db.users then Step(Err(UserNotFound), db)
    else
      var row := db.users[username];
      if VerifyPassword(hash, password, row.digest) then
        var session := SessionRow(row.userId, now + SessionTtlMillis);
        Step(Ok(token), db.(sessions := db.sessions[token := session]))
      else Step(Err(InvalidPassword), db)
  }

  /** The username the join of a session to `users` on the user id finds, if any. */
  ghost function JoinUser(users: map<string, UserRow>, userId: int): (u: Option<string>)
    ensures u.None? <==> userId !in UserIds(users)
    ensures u.Some? ==> u.value in users && users[u.value].userId == userId
  {
    if userId in UserIds(users) then
      var u :| u in users && users[u].userId == userId; Some(u)
    else None
  }

  /**
   * `validateSession` at time `now`: no joined row gives `None` (Java's null);
   * a session whose expiry is strictly after `now` gives its user with an
   * empty password; any other session is expired.
   */
  ghost function Validate(db: Db, token: string, now: int): (r: Result<Option<User>, AuthError>)
    ensures token !in db.sessions ==> r == Ok(None)
    ensures token in db.sessions && db.sessions[token].userId !in UserIds(db.users) ==> r == Ok(None)
    ensures token in db.sessions && db.sessions[token].userId in UserIds(db.users) ==>
      (r == Err(SessionExpired) <==> db.sessions[token].expiry <= now)
    ensures token in db.sessions && db.sessions[token].userId in UserIds(db.users) && now < db.sessions[token].expiry ==>
      r.Ok? && r.value.Some?
    ensures r.Ok? && r.value.Some? ==>
      && token in db.sessions
      && now < db.sessions[token].expiry
      && r.value.value.username in db.users
      && r.value.value.userId == db.sessions[token].userId
      && db.users[r.value.value.username].userId == r.value.value.userId
      && r.value.value.name == db.users[r.value.value.username].name
      && r.value.value.role == db.users[r.value.value.username].role
      && r.value.value.password == ""
  {
    if token !in db.sessions then Ok(None)
    else
      var session := db.sessions[token];
      match JoinUser(db.users, session.userId)
      case None => Ok(None)
      case Some(username) =>
        var row := db.users[username];
        if session.expiry > now then Ok(Some(User(row.userId, row.name, username, "", row.role)))
        else Err(SessionExpired)
  }

  /** `logoutUser`: delete the session keyed by `token`, if there is one. */
  function Logout(db: Db, token: string): (db': Db)
    ensures db'.sessions.Keys == db.sessions.Keys - {token}
    ensures forall t :: t in db'.sessions ==> db'.sessions[t] == db.sessions[t]
    ensures db'.users == db.users && db'.nextUserId == db.nextUserId
  {
    db.(sessions := db.sessions - {token})
  }
}
