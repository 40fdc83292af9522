/** The login, refresh and logout steps of the authentication service. */
module AuthService {
  import opened Models
  import opened Security
  import opened BaseRepo
  import opened Database
  import opened SessionRepo
  import opened SessionCrud
  import opened UserCrud

  datatype TokenPair = TokenPair(access: Token, refresh: Token)

  /** The tokens handed out for a session: an access token with `sub` only,
      and a refresh token whose `jti` is the session's id. */
  function SessionTokens(settings: Settings, email: string, sessionId: Id, now: int): TokenPair
  {
    TokenPair(CreateAccessToken(map["sub" := email], settings, now),
              CreateRefreshToken(map["sub" := email, "jti" := IdText(sessionId)], settings, now))
  }

  /** Unknown email and wrong password fail alike. */
  const IncorrectLogin: Exception := Http(401, "Incorrect email or password", map[])

  /** True when the submitted credentials match a stored user. */
  predicate Authenticates(users: seq<User>, email: string, password: string)
  {
    var user := GetUserByEmail(users, email);
    user.Some? && VerifyPassword(password, user.value.data.hashedPassword)
  }

  method Login(db: Db, settings: Settings, client: RequestInfo, email: string, password: string, now: int)
    returns (r: Result<TokenPair, Exception>)
    requires db.Valid()
    modifies db.sessions
    ensures db.Valid()
    ensures r.Failure? <==> !Authenticates(db.users.rows, email, password)
    ensures r.Failure? ==> r.error == IncorrectLogin && db.sessions.rows == old(db.sessions.rows)
    ensures r.Success? ==>
      var user := GetUserByEmail(db.users.rows, email).value;
      var s := Row(old(db.sessions.nextId), NewSessionData(settings, user.id, client, now));
      && !HasId(old(db.sessions.rows), s.id)
      && db.sessions.rows == old(db.sessions.rows) + [s]
      && r.value == SessionTokens(settings, user.data.email, s.id, now)
  {
    var user := GetUserByEmail(db.users.rows, email);
    if user.None? || !VerifyPassword(password, user.value.data.hashedPassword) {
      return Failure(IncorrectLogin);
    }
    var u := user.value;
    var sessionData := NewSessionData(settings, u.id, client, now);
    assert HasId(db.users.rows, u.id) by {
      var k :| 0 <= k < |db.users.rows| && db.users.rows[k] == u;
    }
    OwnedAfterInsert(db.sessions.rows, db.users.rows, Row(db.sessions.nextId, sessionData));
    var dbSession := db.sessions.Create(sessionData);
    r := Success(SessionTokens(settings, u.data.email, dbSession.id, now));
  }

  /** Rotation: delete the old session, then create its replacement for the
      same user and mint tokens bound to the new one. */
  method Refresh(db: Db, settings: Settings, client: RequestInfo, oldSession: SessionWithUser, now: int)
    returns (r: TokenPair)
    requires db.Valid() && oldSession.session in db.sessions.rows
    requires oldSession.user in db.users.rows && oldSession.user.id == oldSession.session.data.userId
    modifies db.sessions
    ensures db.Valid()
    ensures
      var s := Row(old(db.sessions.nextId), NewSessionData(settings, oldSession.session.data.userId, client, now));
      && db.sessions.rows == Without(old(db.sessions.rows), IdIs(oldSession.session.id)) + [s]
      && !HasId(old(db.sessions.rows), s.id)
      && r == SessionTokens(settings, oldSession.user.data.email, s.id, now)
    ensures !HasId(db.sessions.rows, oldSession.session.id)
    ensures |db.sessions.rows| == |old(db.sessions.rows)|
  {
    var oldId := oldSession.session.id;
    assert HasId(db.users.rows, oldSession.session.data.userId) by {
      var k :| 0 <= k < |db.sessions.rows| && db.sessions.rows[k] == oldSession.session;
    }
    OwnedAfterRemoval(db.sessions.rows, db.users.rows, IdIs(oldId));
    var _ := db.sessions.Delete(oldSession.session);

    var sessionData := NewSessionData(settings, oldSession.session.data.userId, client, now);
    OwnedAfterInsert(db.sessions.rows, db.users.rows, Row(db.sessions.nextId, sessionData));
    var newDbSession := db.sessions.Create(sessionData);
    assert newDbSession.id != oldId by {
      var k :| 0 <= k < |old(db.sessions.rows)| && old(db.sessions.rows)[k] == oldSession.session;
    }
    r := SessionTokens(settings, oldSession.user.data.email, newDbSession.id, now);
  }

  method Logout(db: Db, sessionToDelete: SessionWithUser)
    requires db.Valid() && sessionToDelete.session in db.sessions.rows
    modifies db.sessions
    ensures db.Valid()
    ensures db.sessions.rows == Without(old(db.sessions.rows), IdIs(sessionToDelete.session.id))
    ensures !HasId(db.sessions.rows, sessionToDelete.session.id)
    ensures |db.sessions.rows| == |old(db.sessions.rows)| - 1
  {
    OwnedAfterRemoval(db.sessions.rows, db.users.rows, IdIs(sessionToDelete.session.id));
    var _ := db.sessions.Delete(sessionToDelete.session);
  }
}
