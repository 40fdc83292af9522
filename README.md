# Authentication core of a FastAPI to-do service, in Dafny

This project models the authentication layer of a FastAPI and SQLModel
application. It covers:

- password hashing;
- the two JWT classes (access and refresh, each signed with its own secret);
- the Redis denylist of access-token ids;
- the generic repository and its session, user and password-reset-token
  specialisations;
- the login, refresh-rotation and logout services and their HTTP endpoints;
- the two request guards (the current user from a bearer token, the
  current session from the `refresh_token` cookie);
- the handler that turns the application's exceptions into JSON responses.

The database (one `AsyncSession`) is the class `Database.Db`. It holds three
`BaseRepo.Table<D>` objects: users, sessions and reset tokens. A table is a
sequence of `Row(id, data)` in storage order, plus a counter that hands out
fresh primary keys. `Db.Valid()` holds the schema's constraints:

- unique ids;
- the unique indexes on `user.email` and `password_reset_token.token_hash`;
- the foreign keys `session.user_id -> user.id` and
  `password_reset_token.user_id -> user.id`.

Every state-changing operation preserves these constraints. The denylist is
the class `JwtDenylist.Denylist`, holding a map from key to expiry instant.
Time is an integer number of seconds, passed in as `now`. Lifetimes are
configured in minutes (`Security.Settings`).

Modelling choices:

- A token is the value `Token(secret, claims, exp)`. A bearer string from a
  client is `Credential`: either a token this system signed (`Jwt`) or any
  other text (`Text`), which never decodes.
- bcrypt's output is the symbolic term `Hashed(password)`, and verification
  compares against it.
- The text of an id (`str(uuid)`) is its decimal form, and `uuid.UUID(text)`
  is `Models.ParseId`. The two are proved to round-trip.

Where the code's behaviour is easy to miss, the model follows it:

- Access tokens are minted with a `sub` claim only, but the access guard
  demands a `jti`. As written, no minted access token authenticates anyone
  (`Dependencies.MintedAccessTokenRejected`).
- Logout deletes the session and clears the cookie. It does not denylist
  the access token.
- Logout runs the refresh guard first. A second logout with the same cookie
  therefore fails with InvalidSession; it is not a silent no-op
  (`LoginEndpoints.Logout`).
- A session whose `expires_at` equals `now` is still accepted (the
  comparison is strict).
- A denylist entry whose time to live rounds to zero is not stored.

## Model

| member | source | states |
|---|---|---|
| Models.IdText | app/services/auth_service.py:32 | the text put into a refresh token's `jti` is non-empty and all digits |
| Models.ParseId | app/api/v1/dependencies.py:53 | parsing succeeds exactly on non-empty digit strings; every other `jti` is where `uuid.UUID` raises |
| Models.ParseIdText | app/api/v1/dependencies.py:53 | parsing the text of a session id gives back that id |
| Models.IdTextInjective | app/services/auth_service.py:32 | distinct ids have distinct texts, so a `jti` names one session |
| Security.GetPasswordHash | app/core/security.py:11-12 | the stored hash of a password verifies against that password |
| Security.VerifyPassword | app/core/security.py:8-9 | verification accepts exactly the hash term of the submitted password, so the hash of any other password is refused (proved in `VerifyPasswordOnlyOwnHash`) |
| Security.VerifyPasswordOnlyOwnHash | app/core/security.py:8-12 | a password verifies against the hash of another password exactly when the two are equal |
| Security.CreateToken | app/core/security.py:14-18 | the token is signed with the given secret, `exp` is now plus the delta, and every caller key other than `exp` keeps its value; the caller's claims are a value and are not changed |
| Security.CreateAccessToken | app/core/security.py:21-23 | access tokens use the access secret and the access lifetime |
| Security.CreateRefreshToken | app/core/security.py:25-27 | refresh tokens use the refresh secret and the refresh lifetime |
| Security.Decode | app/api/v1/dependencies.py:25 | decoding succeeds exactly for a signed token with the expected secret and `exp` not before now, and yields its claims; the other secret gives BadSignature |
| Security.DecodeCreateToken | app/core/security.py:14-18 | a freshly minted token decodes under its own secret, until its expiry, to the caller's claims without `exp` |
| Security.TokenClassesDoNotMix | app/core/security.py:21-27 | a refresh token fails access decoding and an access token fails refresh decoding |
| JwtDenylist.Added | app/core/jwt_denylist.py:7-10 | a non-positive time to live leaves the store unchanged; a positive one stores the key for exactly that many seconds; no other key changes |
| JwtDenylist.Denylist.AddJtiToDenylist | app/core/jwt_denylist.py:7-10 | the new store is `Added` of the old one, and with a positive time to live the key is denylisted at once |
| JwtDenylist.Denylist.IsJtiDenylisted | app/core/jwt_denylist.py:12-13 | a read-only lookup, true exactly while the store holds the key and its expiry has not passed; how long an added key stays denylisted is proved in `DenylistedUntilExpiry` |
| JwtDenylist.DenylistedUntilExpiry | app/core/jwt_denylist.py:7-13 | after a write with positive time to live the key is denylisted at a later time exactly when that time is not past `exp`; otherwise the lookup is as before |
| JwtDenylist.AddLeavesOtherKeys | app/core/jwt_denylist.py:10 | adding one key does not change whether any other key is denylisted |
| BaseRepo.First | app/repositories/base_repo.py:18-21 | the query returns the first row satisfying the condition, or None exactly when no row does |
| BaseRepo.FirstOfUnique | app/repositories/base_repo.py:18-21 | when at most one row satisfies the condition, any row that does is the one returned |
| BaseRepo.FirstById | app/repositories/base_repo.py:10-11 | under unique ids a primary-key lookup returns the stored row with that id |
| BaseRepo.GetById | app/repositories/base_repo.py:10-11 | the row stored under the id, or None exactly when there is none |
| BaseRepo.GetMulti | app/repositories/base_repo.py:13-16 | the slice starting at `skip` of length `min(limit, rest)` (empty past the end), with defaults 0 and 100 |
| BaseRepo.GetByField | app/repositories/base_repo.py:18-21 | the first row whose field equals the value, or None exactly when no row matches |
| BaseRepo.Without | app/repositories/base_repo.py:47-50 | the table after a delete keeps exactly the rows not matching the condition |
| BaseRepo.WithoutNoMatch | app/crud/session.py:32 | deleting where nothing matches leaves the table unchanged |
| BaseRepo.WithoutIdempotent | app/crud/session.py:30-34 | deleting twice with the same condition is deleting once |
| BaseRepo.WithoutKeepsUniqueIds | app/repositories/base_repo.py:47-50 | deleting keeps primary keys unique |
| BaseRepo.WithoutIdRemovesOne | app/repositories/base_repo.py:47-50 | deleting by a stored primary key removes exactly one row |
| BaseRepo.Table.Create | app/repositories/base_repo.py:23-28 | exactly one row is appended, built from the input under a fresh id, and it is returned |
| BaseRepo.Table.Delete | app/repositories/base_repo.py:47-50 | the object is removed and returned, the other rows stay in order, and the count drops by one |
| BaseRepo.Table.DeleteWhere | app/repositories/password_reset_token_repo.py:15-16 | the table keeps exactly the rows not matching the condition |
| BaseRepo.UpdateData | app/repositories/base_repo.py:33-36 | a dict payload counts whole; a model payload counts only its explicitly set fields |
| BaseRepo.Update | app/repositories/base_repo.py:30-40 | every field of the object named in the payload takes the payload's value, every other field keeps its value, and payload keys that are not fields are ignored |
| Database.OwnedAfterRemoval | app/models/session.py:14 | deleting sessions keeps every remaining session owned by a stored user |
| Database.OwnedAfterInsert | app/models/session.py:14 | a session for a stored user keeps the foreign key satisfied |
| Database.OwnedAfterNewUser | app/models/session.py:14 | adding a user keeps every session owned |
| Database.TokensOwnedAfterNewUser | app/models/password_reset_token.py:17 | adding a user keeps every reset token owned |
| Database.TokensAfterRemoval | app/repositories/password_reset_token_repo.py:15-16 | deleting reset tokens keeps their hashes unique and every remaining token owned |
| SessionRepo.GetSessionWithUser | app/repositories/session_repo.py:13-16 | the session with that id, with its owner eagerly loaded, or None exactly when there is none |
| SessionCrud.CreateSession | app/crud/session.py:10-23 | exactly one session is appended under a fresh id, for the user, device and address given, expiring one refresh lifetime after now, and it is returned |
| SessionCrud.GetSessionById | app/crud/session.py:25-28 | the same read-only lookup as the repository's |
| SessionCrud.DeleteSessionById | app/crud/session.py:30-34 | only the named session is removed; an absent id changes nothing |
| PasswordResetTokenRepo.GetByTokenHash | app/repositories/password_reset_token_repo.py:11-12 | a token with that hash, or None exactly when there is none |
| PasswordResetTokenRepo.AtMostOneTokenPerHash | app/models/password_reset_token.py:15 | under the unique index, the token found is the only one with that hash |
| PasswordResetTokenRepo.DeleteAllForUser | app/repositories/password_reset_token_repo.py:14-16 | no token of the user remains and every other token is kept |
| PasswordResetTokenRepo.DeleteAllForUserIdempotent | app/repositories/password_reset_token_repo.py:15-16 | a second bulk delete for the same user removes nothing more |
| UserCrud.GetUserByEmail | app/crud/user.py:16-19 | a user with that email, or None exactly when there is none; under the unique index, the only one |
| UserCrud.ValidAfterNewUser | app/models/user.py:11 | adding a user whose email is free keeps emails unique and sessions owned |
| UserCrud.CreateUser | app/crud/user.py:7-14 | one user is appended with the email and the password's hash (never the password) and returned; a taken email is refused by the unique index and changes nothing |
| UserService.RegisterNewUser | app/services/user_service.py:13-24 | a taken email fails with 409 and changes nothing; otherwise exactly one user is stored, with only the email and the password's hash |
| Dependencies.TruthyClaim | app/api/v1/dependencies.py:26-27 | a claim is taken exactly when it is present and non-empty |
| Dependencies.GetCurrentUser | app/api/v1/dependencies.py:23-38 | every failure is InvalidCredentials; a bad or expired token, a missing `jti` and a `jti` the denylist store holds fail whatever users are stored; success holds exactly when all checks pass and some user has email `sub`, and the user returned has that email |
| Dependencies.MintedAccessTokenRejected | app/api/v1/dependencies.py:26-28 | an access token as minted at login (`sub` only) is always rejected |
| Dependencies.RevokedAccessTokenRejected | app/api/v1/dependencies.py:27-28 | a token added to the denylist store before its expiry is rejected at every later time |
| Dependencies.SessionIdClaim | app/api/v1/dependencies.py:41-53 | an empty cookie, a failed refresh decoding or a missing `jti` give InvalidSession; a malformed `jti` gives the distinct ValueError; success yields the parsed `jti` |
| Dependencies.GetValidSessionFromRefreshToken | app/api/v1/dependencies.py:40-57 | the cookie validates exactly when its `jti` names a stored session with `expires_at` not before now; the session returned has the `jti` as id and carries its owner |
| Dependencies.MintedRefreshTokenValidates | app/api/v1/dependencies.py:53-57 | a refresh token minted for a stored session validates to that session and its owner while both last |
| Dependencies.StaleRefreshTokenRejected | app/api/v1/dependencies.py:53-55 | once the session a cookie validated to is gone, the cookie fails with InvalidSession at every time |
| AuthService.Login | app/services/auth_service.py:16-33 | unknown email and wrong password fail alike with 401 and create nothing; success appends one session for the user expiring one refresh lifetime later, and returns an access token with `sub` and a refresh token with `sub` and the new session's id as `jti` |
| AuthService.Refresh | app/services/auth_service.py:35-47 | given the session with its owning user, the old session is deleted and one new session for the same user is appended; the old id is gone, the count is unchanged, and the tokens carry the owner's email and the new id |
| AuthService.Logout | app/services/auth_service.py:49-50 | exactly the given session is removed |
| LoginEndpoints.LoginForAccessToken | app/api/v1/endpoints/login.py:20-52 | bad credentials give 401 with `WWW-Authenticate: Bearer` and create nothing; success appends one session, returns the bearer access token, and sets the `refresh_token` cookie (http-only, lax, secure) to a token that validates to the new session |
| LoginEndpoints.RefreshAccessToken | app/api/v1/endpoints/login.py:57-82 | a failing guard passes its error through and changes nothing; otherwise the current session is replaced by one for the same user, the new cookie validates to it, and the old cookie is refused from then on |
| LoginEndpoints.Logout | app/api/v1/endpoints/login.py:84-93 | a failing guard passes its error through and changes nothing; otherwise the current session is removed, the cookie is deleted, the body is "Logout Successful", and the cookie is refused from then on |
| ExceptionHandlers.CustomExceptionHandler | app/core/exceptions/handlers.py:9-25 | 409, 404, 401 and 500 each correspond exactly to their exception kinds with their fixed details; only 401 carries headers (the Bearer challenge), and every body is `{"detail": ...}` |
| ExceptionHandlers.CredentialAndSessionErrorsAlike | app/core/exceptions/handlers.py:20-23 | InvalidCredentials and InvalidSession give identical responses |
| ExceptionHandlers.CurrentUserFailureIs401 | app/core/exceptions/handlers.py:20-23 | every refusal by the access guard reaches the client as the same 401 |
| ExceptionHandlers.RefreshFailureIs401 | app/core/exceptions/handlers.py:20-23 | every refusal by the refresh guard, except a malformed `jti`, reaches the client as the same 401 |

## Left out

- Network and process I/O: the Redis client, the database engine, the broker connection, the worker and e-mail delivery. The stores are in-memory values, and each `await` is a plain step.
- Concurrency: the service is modelled sequentially, so two concurrent refreshes racing on one cookie are not modelled.
- Logging, correlation ids, metrics and application wiring (router, middleware, settings loading).
- Cryptography: bcrypt and its salt, and JWT signing with its algorithm. Hashing is a symbolic term and signing is a tag naming the secret, so forging a signature is not expressible.
- Security.VerifyPasswordOnlyOwnHash: holds of the symbolic hash. bcrypt as passlib uses it compares only the first 72 bytes of a password, so two passwords that agree on those bytes verify against each other's hash.
- Security.TokenClassesDoNotMix: the two secrets are distinct by construction. In the code they are independent settings, nothing checks that they differ, and the property holds only when ACCESS_SECRET_KEY differs from REFRESH_SECRET_KEY. With equal keys a refresh token, which carries `sub` and a non-empty `jti`, would pass the access guard.
- Wall-clock and float time: `datetime.utcnow()`, `.timestamp()` and `round` become an integer `now` in seconds. Access and refresh lifetimes are exact multiples of 60 seconds.
- Ids: UUIDs and auto-increment keys are drawn from one counter per table, and their text is decimal.
- `created_at` / `updated_at` timestamps of every row.
- BaseRepo.GetMulti: `skip` and `limit` are natural numbers. The code accepts any integer, and what a negative offset or limit does is up to the database (refused by some, read as "no limit" by others), so that case is not modelled.
- BaseRepo.GetMulti: query results follow the table's storage order. The SQL has no ORDER BY, so the database does not fix which rows a page holds. The same holds for the first match returned by BaseRepo.First and BaseRepo.GetByField when the column is not unique.
- BaseRepo.Update: computes the object's new attribute map; writing it back to the table and committing is not modelled.
- In the refresh rotation, the order of delete and create is visible only through the final state. No reader runs between the two steps in a sequential model.
- PasswordResetTokenRepo.DeleteAllForUser: the code executes the bulk delete without committing it, unlike every other write. The model treats the delete as applied; whether it persists depends on a later commit by the caller.
- The password-reset flow beyond the repository (issuing, mailing and consuming tokens); no code for it is part of this model.
- FastAPI's own responses: a missing `refresh_token` cookie (422), and the 500 for the uncaught ValueError of a malformed `jti`, which the model returns as the distinct error `ValueError`.
- Keyword-argument mismatches between callers and repositories, the missing `get_session` import, and the `user_id=int` default are modelled as their evident intent: each call goes to the store it names.
- SessionCrud.CreateSession: requires that the user exists. The database would refuse a session for an unknown user through its foreign key, and that refusal is not modelled.
- Database.Db: the foreign keys and unique indexes are kept as invariants of the model rather than checked by a database. The database's generic IntegrityError is modelled only in UserCrud.CreateUser.
