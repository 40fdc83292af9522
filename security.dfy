/** Password hashing and the token codec: claim sets signed with one of two
    secrets and carrying an expiry instant. Times are whole seconds. */
module Security {
  import opened Models

  /** Which of the two configured signing secrets a token was signed with. */
  datatype SecretClass = AccessSecretKey | RefreshSecretKey

  /** The string claims of a token (`sub`, `jti`); the expiry is kept apart. */
  type Claims = map<string, string>

  /** A signed token: the secret it was signed with, its claims and `exp`. */
  datatype Token = Token(secret: SecretClass, claims: Claims, exp: int)

  /** A bearer string as presented by a client: either a token this system
      signed, or any other text (empty, garbled or forged), which never
      decodes. */
  datatype Credential = Jwt(token: Token) | Text(raw: string)

  datatype DecodeError = BadSignature | Expired | Malformed

  /** The configured lifetimes, in minutes. */
  datatype Settings = Settings(accessTokenExpireMinutes: int, refreshTokenExpireMinutes: int)

  function Minutes(m: int): int { m * 60 }

  function GetPasswordHash(password: string): (h: PasswordHash)
    ensures VerifyPassword(password, h)
  {
    Hashed(password)
  }

  /** bcrypt's check: the stored hash is the hash of the submitted password. */
  function VerifyPassword(plain: string, hashed: PasswordHash): (b: bool)
    ensures b <==> hashed == Hashed(plain)
  {
    hashed == Hashed(plain)
  }

  lemma VerifyPasswordOnlyOwnHash(plain: string, other: string)
    ensures VerifyPassword(plain, GetPasswordHash(other)) <==> plain == other
  {
  }

  /** Copy `data`, set `exp` to now + expiresDelta, and sign under `secret`.
      A string `exp` key in `data` is overwritten by the numeric expiry. */
  function CreateToken(data: Claims, expiresDelta: int, secret: SecretClass, now: int): (t: Token)
    ensures t.secret == secret
    ensures t.exp == now + expiresDelta
    ensures "exp" !in t.claims && t.claims.Keys == data.Keys - {"exp"}
    ensures forall k :: k in data && k != "exp" ==> t.claims[k] == data[k]
  {
    Token(secret, data - {"exp"}, now + expiresDelta)
  }

  function CreateAccessToken(data: Claims, settings: Settings, now: int): (t: Token)
    ensures t.secret == AccessSecretKey
    ensures t.exp == now + Minutes(settings.accessTokenExpireMinutes)
    ensures t.claims == data - {"exp"}
  {
    CreateToken(data, Minutes(settings.accessTokenExpireMinutes), AccessSecretKey, now)
  }

  function CreateRefreshToken(data: Claims, settings: Settings, now: int): (t: Token)
    ensures t.secret == RefreshSecretKey
    ensures t.exp == now + Minutes(settings.refreshTokenExpireMinutes)
    ensures t.claims == data - {"exp"}
  {
    CreateToken(data, Minutes(settings.refreshTokenExpireMinutes), RefreshSecretKey, now)
  }

  /** jwt.decode with one secret at time `now`: other text is malformed, a
      token signed with the other secret fails its signature check, and a
      token whose `exp` lies before `now` is expired. */
  function Decode(c: Credential, key: SecretClass, now: int): (r: Result<Claims, DecodeError>)
    ensures r.Success? <==> c.Jwt? && c.token.secret == key && now <= c.token.exp
    ensures r.Success? ==> r.value == c.token.claims
    ensures c.Jwt? && c.token.secret != key ==> r == Failure(BadSignature)
  {
    match c
    case Text(_) => Failure(Malformed)
    case Jwt(t) =>
      if t.secret != key then Failure(BadSignature)
      else if t.exp < now then Failure(Expired)
      else Success(t.claims)
  }

  /** A freshly minted token decodes, under its own secret and until its
      expiry, to the caller's claims without `exp`. */
  lemma DecodeCreateToken(data: Claims, delta: int, secret: SecretClass, now: int, t: int)
    requires t <= now + delta
    ensures Decode(Jwt(CreateToken(data, delta, secret, now)), secret, t) == Success(data - {"exp"})
  {
  }

  /** Neither kind of token is accepted where the other kind is expected. */
  lemma TokenClassesDoNotMix(data: Claims, settings: Settings, now: int, t: int)
    ensures Decode(Jwt(CreateRefreshToken(data, settings, now)), AccessSecretKey, t) == Failure(BadSignature)
    ensures Decode(Jwt(CreateAccessToken(data, settings, now)), RefreshSecretKey, t) == Failure(BadSignature)
  {
  }
}
