/** The two request guards: the current user from an access token, and the
    current session from the refresh-token cookie. Both only read the stores. */
module Dependencies {
  import opened Models
  import opened Security
  import opened JwtDenylist
  import opened BaseRepo
  import opened Database
  import opened SessionRepo
  import opened UserCrud

  /** `payload.get(key)` when it is truthy: present and not empty. */
  function TruthyClaim(claims: Claims, key: string): (r: Option<string>)
    ensures r.Some? <==> key in claims && claims[key] != ""
    ensures r.Some? ==> r.value == claims[key]
  {
    if key in claims && claims[key] != "" then Some(claims[key]) else None
  }

  /** The user an access token speaks for. In order: the token must decode
      under the access secret and be unexpired, carry a `jti` that is not
      denylisted, and carry a `sub` that is some user's email. Every failure
      is the same InvalidCredentials. A missing `sub` is looked up as NULL,
      which matches no user. */
  function GetCurrentUser(users: seq<User>, denylist: Denylist, token: Credential, now: int): (r: Result<User, Exception>)
    reads denylist
    ensures r.Failure? ==> r.error == Custom(InvalidCredentials)
    ensures Decode(token, AccessSecretKey, now).Failure? ==> r.Failure?
    ensures token.Jwt? && TruthyClaim(token.token.claims, "jti").None? ==> r.Failure?
    ensures token.Jwt? && "jti" in token.token.claims && denylist.IsJtiDenylisted(token.token.claims["jti"], now) ==> r.Failure?
    ensures r.Success? <==>
      && Decode(token, AccessSecretKey, now).Success?
      && TruthyClaim(token.token.claims, "jti").Some?
      && !denylist.IsJtiDenylisted(token.token.claims["jti"], now)
      && "sub" in token.token.claims
      && exists i :: 0 <= i < |users| && users[i].data.email == token.token.claims["sub"]
    ensures r.Success? ==> r.value in users && r.value.data.email == token.token.claims["sub"]
  {
    match Decode(token, AccessSecretKey, now)
    case Failure(_) => Failure(Custom(InvalidCredentials))
    case Success(payload) =>
      var jti := TruthyClaim(payload, "jti");
      if jti.None? || denylist.IsJtiDenylisted(jti.value, now) then Failure(Custom(InvalidCredentials))
      else if "sub" !in payload then Failure(Custom(InvalidCredentials))
      else
        match GetUserByEmail(users, payload["sub"])
        case None => Failure(Custom(InvalidCredentials))
        case Some(user) => Success(user)
  }

  /** Access tokens are minted with a `sub` claim only, so none of them
      passes the `jti` check: no user is ever authenticated by one. */
  lemma MintedAccessTokenRejected(users: seq<User>, denylist: Denylist, email: string,
                                  settings: Settings, mintedAt: int, t: int)
    ensures GetCurrentUser(users, denylist, Jwt(CreateAccessToken(map["sub" := email], settings, mintedAt)), t)
         == Failure(Custom(InvalidCredentials))
  {
    var tok := CreateAccessToken(map["sub" := email], settings, mintedAt);
    assert "jti" !in tok.claims;
  }

  /** A token whose `jti` was denylisted while it still had time to live is
      refused from then on: by the denylist up to its expiry, and by the
      expiry check afterwards. */
  lemma RevokedAccessTokenRejected(users: seq<User>, denylist: Denylist, entries: map<string, int>,
                                   tok: Token, now: int, t: int)
    requires "jti" in tok.claims && now < tok.exp && now <= t
    requires denylist.entries == Added(entries, tok.claims["jti"], tok.exp, now)
    ensures GetCurrentUser(users, denylist, Jwt(tok), t) == Failure(Custom(InvalidCredentials))
  {
    DenylistedUntilExpiry(entries, tok.claims["jti"], tok.exp, now, t);
  }

  /** The try block of the refresh guard plus `uuid.UUID(session_id)`: the
      session id a refresh cookie names. */
  function SessionIdClaim(refreshToken: Credential, now: int): (r: Result<Id, Exception>)
    ensures r.Failure? ==> r.error == Custom(InvalidSession) || r.error == ValueError
    ensures refreshToken == Text("") ==> r == Failure(Custom(InvalidSession))
    ensures Decode(refreshToken, RefreshSecretKey, now).Failure? ==> r == Failure(Custom(InvalidSession))
    ensures r == Failure(ValueError) <==>
      && Decode(refreshToken, RefreshSecretKey, now).Success?
      && TruthyClaim(refreshToken.token.claims, "jti").Some?
      && ParseId(refreshToken.token.claims["jti"]).None?
    ensures r.Success? <==>
      && Decode(refreshToken, RefreshSecretKey, now).Success?
      && TruthyClaim(refreshToken.token.claims, "jti").Some?
      && ParseId(refreshToken.token.claims["jti"]).Some?
    ensures r.Success? ==> ParseId(refreshToken.token.claims["jti"]) == Some(r.value)
  {
    if refreshToken == Text("") then Failure(Custom(InvalidSession))
    else
      match Decode(refreshToken, RefreshSecretKey, now)
      case Failure(_) => Failure(Custom(InvalidSession))
      case Success(payload) =>
        match TruthyClaim(payload, "jti")
        case None => Failure(Custom(InvalidSession))
        case Some(sessionId) =>
          match ParseId(sessionId)
          case None => Failure(ValueError)
          case Some(id) => Success(id)
  }

  /** The session a refresh cookie stands for, with its owner. It must name
      a stored session that has not expired; a session expiring exactly now
      is still accepted. */
  function GetValidSessionFromRefreshToken(sessions: seq<Session>, users: seq<User>, refreshToken: Credential, now: int)
    : (r: Result<SessionWithUser, Exception>)
    requires UniqueIds(sessions) && UniqueIds(users) && SessionsOwned(sessions, users)
    ensures SessionIdClaim(refreshToken, now).Failure? ==> r == Failure(SessionIdClaim(refreshToken, now).error)
    ensures SessionIdClaim(refreshToken, now).Success? && r.Failure? ==> r.error == Custom(InvalidSession)
    ensures SessionIdClaim(refreshToken, now).Success? && !HasId(sessions, SessionIdClaim(refreshToken, now).value) ==> r.Failure?
    ensures forall i :: 0 <= i < |sessions| && SessionIdClaim(refreshToken, now) == Success(sessions[i].id) ==>
              (r.Success? <==> now <= sessions[i].data.expiresAt)
    ensures r.Success? ==> SessionIdClaim(refreshToken, now) == Success(r.value.session.id)
    ensures r.Success? ==> r.value.session in sessions && now <= r.value.session.data.expiresAt
    ensures r.Success? ==> r.value.user in users && r.value.user.id == r.value.session.data.userId
  {
    match SessionIdClaim(refreshToken, now)
    case Failure(e) => Failure(e)
    case Success(id) =>
      match GetSessionWithUser(sessions, users, id)
      case None => Failure(Custom(InvalidSession))
      case Some(current) =>
        if current.session.data.expiresAt < now then Failure(Custom(InvalidSession))
        else Success(current)
  }

  /** A refresh token minted for a stored session validates to that session
      and its owner for as long as both the token and the session last. */
  lemma MintedRefreshTokenValidates(sessions: seq<Session>, users: seq<User>, s: Session, owner: User,
                                    settings: Settings, mintedAt: int, t: int)
    requires UniqueIds(sessions) && UniqueIds(users) && SessionsOwned(sessions, users)
    requires s in sessions && owner in users && owner.id == s.data.userId
    requires t <= mintedAt + Minutes(settings.refreshTokenExpireMinutes) && t <= s.data.expiresAt
    ensures GetValidSessionFromRefreshToken(sessions, users,
              Jwt(CreateRefreshToken(map["sub" := owner.data.email, "jti" := IdText(s.id)], settings, mintedAt)), t)
         == Success(SessionWithUser(s, owner))
  {
    var tok := CreateRefreshToken(map["sub" := owner.data.email, "jti" := IdText(s.id)], settings, mintedAt);
    assert tok.claims["jti"] == IdText(s.id);
    ParseIdText(s.id);
    assert SessionIdClaim(Jwt(tok), t) == Success(s.id);
    FirstById(users, owner);
  }

  /** Rotation and logout detection: once the session a cookie validated to
      is gone, the cookie is refused at every later time with InvalidSession. */
  lemma StaleRefreshTokenRejected(sessions0: seq<Session>, users0: seq<User>, sessions: seq<Session>, users: seq<User>,
                                  refreshToken: Credential, now0: int, t: int)
    requires UniqueIds(sessions0) && UniqueIds(users0) && SessionsOwned(sessions0, users0)
    requires UniqueIds(sessions) && UniqueIds(users) && SessionsOwned(sessions, users)
    requires GetValidSessionFromRefreshToken(sessions0, users0, refreshToken, now0).Success?
    requires !HasId(sessions, GetValidSessionFromRefreshToken(sessions0, users0, refreshToken, now0).value.session.id)
    ensures GetValidSessionFromRefreshToken(sessions, users, refreshToken, t) == Failure(Custom(InvalidSession))
  {
  }
}
