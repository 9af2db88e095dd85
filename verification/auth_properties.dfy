/**
 * Properties that relate the credential operations to each other: the
 * table invariants they keep, what a login makes valid, how expiry and
 * logout end a session, and which sessions each operation leaves alone.
 */
module AuthProperties {
  import opened Wrappers
  import opened Auth

  /** The freshly opened database satisfies the invariants. */
  lemma EmptyDbValid()
    ensures Valid(EmptyDb)
  {
  }

  /** With unique ids, the join finds the one username that holds the id. */
  lemma JoinFindsOwner(users: map<string, UserRow>, username: string)
    requires IdsUnique(users)
    requires username in users
    ensures JoinUser(users, users[username].userId) == Some(username)
  {
    assert users[username].userId in UserIds(users);
  }

  lemma RegisterPreservesValid(db: Db, hash: string -> string, name: string, username: string,
                               password: string, role: string)
    requires Valid(db)
    ensures Valid(Register(db, hash, name, username, password, role).db)
  {
    var db' := Register(db, hash, name, username, password, role).db;
    if username !in db.users {
      assert db'.users[username].userId == db.nextUserId;
      forall t | t in db'.sessions ensures db'.sessions[t].userId in UserIds(db'.users) {
        var id := db.sessions[t].userId;
        var u :| u in db.users && db.users[u].userId == id;
        assert db'.users[u].userId == id;
      }
    }
  }

  lemma LoginPreservesValid(db: Db, hash: string -> string, username: string, password: string,
                            now: int, token: string)
    requires Valid(db)
    requires token !in db.sessions
    ensures Valid(Login(db, hash, username, password, now, token).db)
  {
    if username in db.users {
      assert db.users[username].userId in UserIds(db.users);
    }
  }

  lemma LogoutPreservesValid(db: Db, token: string)
    requires Valid(db)
    ensures Valid(Logout(db, token))
  {
  }

  /** A username can be registered once: a second registration is refused and changes nothing. */
  lemma RegisterTwice(db: Db, hash: string -> string, name: string, username: string,
                      password: string, role: string, name2: string, password2: string, role2: string)
    requires username !in db.users
    ensures Register(db, hash, name, username, password, role).result.Ok?
    ensures var db' := Register(db, hash, name, username, password, role).db;
      Register(db', hash, name2, username, password2, role2) == Step(Err(UserAlreadyExists), db')
  {
  }

  /** Logging in with the registered password succeeds, whatever else is in the tables. */
  lemma LoginAfterRegister(db: Db, hash: string -> string, name: string, username: string,
                           password: string, role: string, now: int, token: string)
    requires username !in db.users
    requires token !in db.sessions
    ensures var db' := Register(db, hash, name, username, password, role).db;
      token !in db'.sessions && Login(db', hash, username, password, now, token).result == Ok(token)
  {
  }

  /** Until it expires, a freshly issued token resolves to the user who logged in. */
  lemma LoginThenValidate(db: Db, hash: string -> string, username: string, password: string,
                          now: int, token: string, later: int)
    requires Valid(db)
    requires token !in db.sessions
    requires Login(db, hash, username, password, now, token).result.Ok?
    requires now <= later < now + SessionTtlMillis
    ensures var row := db.users[username];
      Validate(Login(db, hash, username, password, now, token).db, token, later)
        == Ok(Some(User(row.userId, row.name, username, "", row.role)))
  {
    var db' := Login(db, hash, username, password, now, token).db;
    JoinFindsOwner(db'.users, username);
  }

  /** From the moment of its expiry on, the token is reported expired. */
  lemma LoginThenExpire(db: Db, hash: string -> string, username: string, password: string,
                        now: int, token: string, later: int)
    requires token !in db.sessions
    requires Login(db, hash, username, password, now, token).result.Ok?
    requires now + SessionTtlMillis <= later
    ensures Validate(Login(db, hash, username, password, now, token).db, token, later) == Err(SessionExpired)
  {
    var db' := Login(db, hash, username, password, now, token).db;
    assert db'.sessions[token].userId in UserIds(db'.users);
  }

  /** Expiry is final: an expired token stays expired at every later time, however often it is checked. */
  lemma ExpiredStaysExpired(db: Db, token: string, now: int, later: int)
    requires Validate(db, token, now) == Err(SessionExpired)
    requires now <= later
    ensures Validate(db, token, later) == Err(SessionExpired)
  {
  }

  /** A valid token stays valid at every earlier time, over the same tables. */
  lemma ValidAtEarlierTime(db: Db, token: string, now: int, earlier: int)
    requires Validate(db, token, now).Ok? && Validate(db, token, now).value.Some?
    requires earlier <= now
    ensures Validate(db, token, earlier) == Validate(db, token, now)
  {
  }

  /** Under the invariants, a token in the table never comes back as absent: it is valid or expired. */
  lemma StoredTokenResolves(db: Db, token: string, now: int)
    requires Valid(db)
    requires token in db.sessions
    ensures Validate(db, token, now) != Ok(None)
  {
  }

  /** After logging out, the token is unknown. */
  lemma LogoutThenValidate(db: Db, token: string, now: int)
    ensures Validate(Logout(db, token), token, now) == Ok(None)
  {
  }

  /** Logging out twice is logging out once. */
  lemma LogoutIdempotent(db: Db, token: string)
    ensures Logout(Logout(db, token), token) == Logout(db, token)
  {
  }

  /** Logging out one token leaves every other token's validation as it was. */
  lemma LogoutKeepsOtherSessions(db: Db, token: string, other: string, now: int)
    requires other != token
    ensures Validate(Logout(db, token), other, now) == Validate(db, other, now)
  {
    var db' := Logout(db, token);
    assert other in db'.sessions <==> other in db.sessions;
    if other in db.sessions {
      assert db'.sessions[other] == db.sessions[other];
    }
  }

  /** Logging in, successfully or not, leaves every other token's validation as it was. */
  lemma LoginKeepsOtherSessions(db: Db, hash: string -> string, username: string, password: string,
                                now: int, token: string, other: string, at: int)
    requires token !in db.sessions
    requires other != token
    ensures Validate(Login(db, hash, username, password, now, token).db, other, at) == Validate(db, other, at)
  {
    var db' := Login(db, hash, username, password, now, token).db;
    assert other in db'.sessions <==> other in db.sessions;
    if other in db.sessions {
      assert db'.sessions[other] == db.sessions[other];
    }
  }

  /** Registering a user leaves the validation of every token as it was. */
  lemma RegisterKeepsSessions(db: Db, hash: string -> string, name: string, username: string,
                              password: string, role: string, token: string, now: int)
    requires Valid(db)
    ensures Validate(Register(db, hash, name, username, password, role).db, token, now)
         == Validate(db, token, now)
  {
    var db' := Register(db, hash, name, username, password, role).db;
    RegisterPreservesValid(db, hash, name, username, password, role);
    if username !in db.users && token in db.sessions {
      var id := db.sessions[token].userId;
      var owner :| owner in db.users && db.users[owner].userId == id;
      JoinFindsOwner(db.users, owner);
      JoinFindsOwner(db'.users, owner);
    }
  }

  /** Two logins of the same user give two sessions that are both valid. */
  lemma TwoSessionsPerUser(db: Db, hash: string -> string, username: string, password: string,
                           now: int, t1: string, t2: string)
    requires Valid(db)
    requires t1 !in db.sessions && t2 !in db.sessions && t1 != t2
    requires Login(db, hash, username, password, now, t1).result.Ok?
    ensures var db1 := Login(db, hash, username, password, now, t1).db;
      && t2 !in db1.sessions
      && var db2 := Login(db1, hash, username, password, now, t2).db;
      && Validate(db2, t1, now).Ok? && Validate(db2, t1, now).value.Some?
      && Validate(db2, t2, now) == Validate(db2, t1, now)
  {
    var db1 := Login(db, hash, username, password, now, t1).db;
    var db2 := Login(db1, hash, username, password, now, t2).db;
    LoginPreservesValid(db, hash, username, password, now, t1);
    LoginPreservesValid(db1, hash, username, password, now, t2);
    LoginThenValidate(db, hash, username, password, now, t1, now);
    LoginKeepsOtherSessions(db1, hash, username, password, now, t2, t1, now);
    LoginThenValidate(db1, hash, username, password, now, t2, now);
  }

  /** A wrong password is refused and opens no session; an unknown user likewise. */
  lemma FailedLoginOpensNoSession(db: Db, hash: string -> string, username: string, password: string,
                                  now: int, token: string)
    requires token !in db.sessions
    requires Login(db, hash, username, password, now, token).result.Err?
    ensures Validate(Login(db, hash, username, password, now, token).db, token, now) == Ok(None)
  {
  }

  /** The whole life of an account: register, log in, resolve the token, log out, and the token is gone. */
  lemma RegisterLoginValidateLogout(db: Db, hash: string -> string, now: int, token: string)
    requires Valid(db)
    requires "alice" !in db.users
    requires token !in db.sessions
    ensures var db1 := Register(db, hash, "Alice", "alice", "pw123", "student").db;
      && token !in db1.sessions
      && var step := Login(db1, hash, "alice", "pw123", now, token);
      && step.result == Ok(token)
      && Validate(step.db, token, now).Ok?
      && Validate(step.db, token, now).value.Some?
      && Validate(step.db, token, now).value.value.role == "student"
      && Validate(step.db, token, now).value.value.username == "alice"
      && Validate(Logout(step.db, token), token, now) == Ok(None)
  {
    var db1 := Register(db, hash, "Alice", "alice", "pw123", "student").db;
    RegisterPreservesValid(db, hash, "Alice", "alice", "pw123", "student");
    LoginThenValidate(db1, hash, "alice", "pw123", now, token, now);
  }
}
