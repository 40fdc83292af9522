/** The /login, /refresh and /logout handlers. Each returns the JSON body
    together with the change it makes to the `refresh_token` cookie. */
module LoginEndpoints {
  import opened Models
  import opened Security
  import opened BaseRepo
  import opened Database
  import opened SessionRepo
  import opened SessionCrud
  import opened UserCrud
  import opened Dependencies
  import opened AuthService

  datatype Body =
    | TokenBody(accessToken: Token, tokenType: string)
    | MessageBody(message: string)

  datatype CookieUpdate =
    | SetCookie(key: string, value: Token, httpOnly: bool, sameSite: string, secure: bool)
    | DeleteCookie(key: string)

  datatype Reply = Reply(body: Body, cookie: CookieUpdate)

  /** The OAuth2 password form. */
  datatype LoginForm = LoginForm(username: string, password: string)

  const LoginRejected: Exception := Http(401, "Incorrect email or password", map["WWW-Authenticate" := "Bearer"])

  /** The cookie that carries a refresh token. */
  function RefreshCookie(token: Token): CookieUpdate
  {
    SetCookie("refresh_token", token, true, "lax", true)
  }

  /** The reply that hands a token pair to the client. */
  function TokenReply(p: TokenPair): Reply
  {
    Reply(TokenBody(p.access, "bearer"), RefreshCookie(p.refresh))
  }

  method LoginForAccessToken(db: Db, settings: Settings, client: RequestInfo, form: LoginForm, now: int)
    returns (r: Result<Reply, Exception>)
    requires db.Valid()
    modifies db.sessions
    ensures db.Valid()
    ensures r.Failure? <==> !Authenticates(db.users.rows, form.username, form.password)
    ensures r.Failure? ==> r.error == LoginRejected && db.sessions.rows == old(db.sessions.rows)
    ensures r.Success? ==>
      var user := GetUserByEmail(db.users.rows, form.username).value;
      var s := Row(old(db.sessions.nextId), NewSessionData(settings, user.id, client, now));
      && !HasId(old(db.sessions.rows), s.id)
      && db.sessions.rows == old(db.sessions.rows) + [s]
      && r.value == TokenReply(SessionTokens(settings, user.data.email, s.id, now))
      && forall t :: t <= now + Minutes(settings.refreshTokenExpireMinutes) ==>
           GetValidSessionFromRefreshToken(db.sessions.rows, db.users.rows, Jwt(r.value.cookie.value), t)
           == Success(SessionWithUser(s, user))
  {
    var user := GetUserByEmail(db.users.rows, form.username);
    if user.None? || !VerifyPassword(form.password, user.value.data.hashedPassword) {
      return Failure(LoginRejected);
    }
    var u := user.value;
    assert HasId(db.users.rows, u.id) by {
      var k :| 0 <= k < |db.users.rows| && db.users.rows[k] == u;
    }
    var dbSession := CreateSession(db, settings, u.id, client, now);

    var tokens := SessionTokens(settings, u.data.email, dbSession.id, now);
    r := Success(TokenReply(tokens));

    forall t | t <= now + Minutes(settings.refreshTokenExpireMinutes)
      ensures GetValidSessionFromRefreshToken(db.sessions.rows, db.users.rows, Jwt(tokens.refresh), t)
           == Success(SessionWithUser(dbSession, u))
    {
      MintedRefreshTokenValidates(db.sessions.rows, db.users.rows, dbSession, u, settings, now, t);
    }
  }

  method RefreshAccessToken(db: Db, settings: Settings, client: RequestInfo, refreshToken: Credential, now: int)
    returns (r: Result<Reply, Exception>)
    requires db.Valid()
    modifies db.sessions
    ensures db.Valid()
    ensures
      var v := old(GetValidSessionFromRefreshToken(db.sessions.rows, db.users.rows, refreshToken, now));
      && (v.Failure? ==> r == Failure(v.error) && db.sessions.rows == old(db.sessions.rows))
      && (v.Success? ==>
          var current := v.value;
          var s := Row(old(db.sessions.nextId), NewSessionData(settings, current.session.data.userId, client, now));
          && !HasId(old(db.sessions.rows), s.id)
          && db.sessions.rows == Without(old(db.sessions.rows), IdIs(current.session.id)) + [s]
          && r == Success(TokenReply(SessionTokens(settings, current.user.data.email, s.id, now)))
          && forall t :: t <= now + Minutes(settings.refreshTokenExpireMinutes) ==>
               GetValidSessionFromRefreshToken(db.sessions.rows, db.users.rows, Jwt(r.value.cookie.value), t)
               == Success(SessionWithUser(s, current.user)))
    ensures r.Success? ==> |db.sessions.rows| == |old(db.sessions.rows)|
    ensures r.Success? ==> forall t ::
      GetValidSessionFromRefreshToken(db.sessions.rows, db.users.rows, refreshToken, t) == Failure(Custom(InvalidSession))
  {
    ghost var sessions0, users0 := db.sessions.rows, db.users.rows;
    var validated := GetValidSessionFromRefreshToken(db.sessions.rows, db.users.rows, refreshToken, now);
    if validated.Failure? {
      return Failure(validated.error);
    }
    var current := validated.value;
    assert HasId(db.sessions.rows, current.session.id) by {
      var k :| 0 <= k < |db.sessions.rows| && db.sessions.rows[k] == current.session;
    }
    WithoutIdRemovesOne(db.sessions.rows, current.session.id);
    DeleteSessionById(db, current.session.id);
    assert HasId(db.users.rows, current.user.id) by {
      var k :| 0 <= k < |db.users.rows| && db.users.rows[k] == current.user;
    }
    var newSession := CreateSession(db, settings, current.session.data.userId, client, now);

    var tokens := SessionTokens(settings, current.user.data.email, newSession.id, now);
    r := Success(TokenReply(tokens));

    assert newSession.id != current.session.id by {
      var k :| 0 <= k < |sessions0| && sessions0[k] == current.session;
    }
    forall t
      ensures GetValidSessionFromRefreshToken(db.sessions.rows, db.users.rows, refreshToken, t) == Failure(Custom(InvalidSession))
    {
      StaleRefreshTokenRejected(sessions0, users0, db.sessions.rows, db.users.rows, refreshToken, now, t);
    }
    forall t | t <= now + Minutes(settings.refreshTokenExpireMinutes)
      ensures GetValidSessionFromRefreshToken(db.sessions.rows, db.users.rows, Jwt(tokens.refresh), t)
           == Success(SessionWithUser(newSession, current.user))
    {
      MintedRefreshTokenValidates(db.sessions.rows, db.users.rows, newSession, current.user, settings, now, t);
    }
  }

  method Logout(db: Db, refreshToken: Credential, now: int) returns (r: Result<Reply, Exception>)
    requires db.Valid()
    modifies db.sessions
    ensures db.Valid()
    ensures
      var v := old(GetValidSessionFromRefreshToken(db.sessions.rows, db.users.rows, refreshToken, now));
      && (v.Failure? ==> r == Failure(v.error) && db.sessions.rows == old(db.sessions.rows))
      && (v.Success? ==>
          && db.sessions.rows == Without(old(db.sessions.rows), IdIs(v.value.session.id))
          && |db.sessions.rows| == |old(db.sessions.rows)| - 1
          && r == Success(Reply(MessageBody("Logout Successful"), DeleteCookie("refresh_token"))))
    ensures r.Success? ==> forall t ::
      GetValidSessionFromRefreshToken(db.sessions.rows, db.users.rows, refreshToken, t) == Failure(Custom(InvalidSession))
  {
    ghost var sessions0, users0 := db.sessions.rows, db.users.rows;
    var validated := GetValidSessionFromRefreshToken(db.sessions.rows, db.users.rows, refreshToken, now);
    if validated.Failure? {
      return Failure(validated.error);
    }
    var current := validated.value;
    assert HasId(db.sessions.rows, current.session.id) by {
      var k :| 0 <= k < |db.sessions.rows| && db.sessions.rows[k] == current.session;
    }
    DeleteSessionById(db, current.session.id);
    r := Success(Reply(MessageBody("Logout Successful"), DeleteCookie("refresh_token")));

    forall t
      ensures GetValidSessionFromRefreshToken(db.sessions.rows, db.users.rows, refreshToken, t) == Failure(Custom(InvalidSession))
    {
      StaleRefreshTokenRejected(sessions0, users0, db.sessions.rows, db.users.rows, refreshToken, now, t);
    }
  }
}
