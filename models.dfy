/** Entities of the authentication core, the exceptions it raises, and the
    textual form of record identifiers. */
module Models {

  datatype Option<+T> = None | Some(value: T)

  datatype Result<+R, +E> = Success(value: R) | Failure(error: E)

  /** A primary key. Session and reset-token ids are UUIDs, user ids are
      auto-incremented integers; both are drawn from a per-table counter. */
  type Id = nat

  /** A row of a table: its primary key and the remaining columns. */
  datatype Row<D> = Row(id: Id, data: D)

  /** A symbolic term standing for bcrypt's output on a password. The model
      never takes it apart: the only thing done with it is comparing it with
      the hash of a submitted password. */
  datatype PasswordHash = Hashed(string)

  datatype UserData = UserData(email: string, hashedPassword: PasswordHash, isActive: bool)
  type User = Row<UserData>

  /** A refresh session. The user agent header may be missing. */
  datatype SessionData = SessionData(expiresAt: int, userId: Id, userAgent: Option<string>, ipAddress: string)
  type Session = Row<SessionData>

  datatype ResetTokenData = ResetTokenData(tokenHash: string, expiresAt: int, userId: Id)
  type PasswordResetToken = Row<ResetTokenData>

  /** The registration payload. */
  datatype UserCreate = UserCreate(email: string, password: string)

  /** What a handler reads from the HTTP request: the `user-agent` header,
      which may be absent, and the client's host address. */
  datatype RequestInfo = RequestInfo(userAgent: Option<string>, host: string)

  /** Column selectors, used with the repository's field queries. */
  function EmailOf(d: UserData): string { d.email }
  function TokenHashOf(d: ResetTokenData): string { d.tokenHash }
  function OwnerOf(d: ResetTokenData): Id { d.userId }

  /** The application's own exception classes. */
  datatype CustomException =
    | UserAlreadyExists
    | UserNotFound
    | InvalidCredentials
    | InvalidSession
    | OtherCustom   // any further subclass of CustomException

  /** Everything a core operation can raise. */
  datatype Exception =
    | Custom(exc: CustomException)
    | Http(status: int, detail: string, headers: map<string, string>)  // FastAPI's HTTPException
    | ValueError       // uuid.UUID applied to a malformed string
    | IntegrityError   // a violated database constraint

  // ---------------------------------------------------------------------
  // Textual form of ids: str(id) and its parser uuid.UUID(text).

  predicate IsDigit(c: char) { '0' <= c <= '9' }

  predicate AllDigits(s: string) { forall i :: 0 <= i < |s| ==> IsDigit(s[i]) }

  function DigitChar(d: nat): (c: char)
    requires d < 10
    ensures IsDigit(c) && c as int - '0' as int == d
  {
    ('0' as int + d) as char
  }

  /** The canonical text of an id, as put into a token's `jti` claim. */
  function IdText(id: Id): (s: string)
    ensures |s| > 0 && AllDigits(s)
  {
    if id < 10 then [DigitChar(id)] else IdText(id / 10) + [DigitChar(id % 10)]
  }

  function DigitsValue(s: string): nat
    requires AllDigits(s)
  {
    if s == [] then 0 else DigitsValue(s[..|s| - 1]) * 10 + (s[|s| - 1] as int - '0' as int)
  }

  /** Parse a `jti` claim back into an id; None is where uuid.UUID raises. */
  function ParseId(s: string): (r: Option<Id>)
    ensures r.Some? <==> |s| > 0 && AllDigits(s)
  {
    if |s| > 0 && AllDigits(s) then Some(DigitsValue(s)) else None
  }

  lemma {:induction false} DigitsValueOfIdText(id: Id)
    ensures DigitsValue(IdText(id)) == id
  {
    if id >= 10 {
      var s := IdText(id / 10) + [DigitChar(id % 10)];
      assert s[..|s| - 1] == IdText(id / 10);
      DigitsValueOfIdText(id / 10);
    }
  }

  /** Parsing the text of an id gives the id back. */
  lemma ParseIdText(id: Id)
    ensures ParseId(IdText(id)) == Some(id)
  {
    DigitsValueOfIdText(id);
  }

  /** Distinct ids have distinct texts, so a `jti` names one record. */
  lemma IdTextInjective(a: Id, b: Id)
    ensures IdText(a) == IdText(b) ==> a == b
  {
    ParseIdText(a);
    ParseIdText(b);
  }
}
