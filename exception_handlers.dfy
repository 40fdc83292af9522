/** The handler that turns the application's own exceptions into JSON
    error responses. */
module ExceptionHandlers {
  import opened Models
  import opened Security
  import opened BaseRepo
  import opened Database
  import opened JwtDenylist
  import opened Dependencies

  datatype JsonResponse = JsonResponse(status: int, content: map<string, string>, headers: map<string, string>)

  const ServerErrorDetail := "An unexpected server error occurred."
  const AuthErrorDetail := "Could not validate credentials, please log in again."

  /** The response for a custom exception: 409 for a duplicate user, 404 for
      a missing one, 401 with a Bearer challenge for bad credentials or a bad
      session, and 500 for any other subclass. */
  function CustomExceptionHandler(exc: CustomException): (r: JsonResponse)
    ensures r.content.Keys == {"detail"}
    ensures r.status != 401 ==> r.headers == map[]
    ensures r.status == 401 ==> r.headers == map["WWW-Authenticate" := "Bearer"]
    ensures r.status == 409 <==> exc == UserAlreadyExists
    ensures r.status == 404 <==> exc == UserNotFound
    ensures r.status == 401 <==> exc == InvalidCredentials || exc == InvalidSession
    ensures r.status == 500 <==> exc == OtherCustom
    ensures exc == UserAlreadyExists ==> r.content["detail"] == "A user with this email already exists."
    ensures exc == UserNotFound ==> r.content["detail"] == "User not found."
    ensures r.status == 401 ==> r.content["detail"] == AuthErrorDetail
    ensures r.status == 500 ==> r.content["detail"] == ServerErrorDetail
  {
    var (statusCode, detail, headers) :=
      match exc
      case UserAlreadyExists => (409, "A user with this email already exists.", map[])
      case UserNotFound => (404, "User not found.", map[])
      case InvalidCredentials => (401, AuthErrorDetail, map["WWW-Authenticate" := "Bearer"])
      case InvalidSession => (401, AuthErrorDetail, map["WWW-Authenticate" := "Bearer"])
      case OtherCustom => (500, ServerErrorDetail, map[]);
    JsonResponse(statusCode, map["detail" := detail], headers)
  }

  /** A client cannot tell a bad access token from a bad session. */
  lemma CredentialAndSessionErrorsAlike()
    ensures CustomExceptionHandler(InvalidCredentials) == CustomExceptionHandler(InvalidSession)
  {
  }

  /** Every way the access-token guard refuses a request reaches the client
      as the same 401 with a Bearer challenge. */
  lemma CurrentUserFailureIs401(users: seq<User>, denylist: Denylist, token: Credential, now: int)
    requires GetCurrentUser(users, denylist, token, now).Failure?
    ensures GetCurrentUser(users, denylist, token, now).error.Custom?
    ensures CustomExceptionHandler(GetCurrentUser(users, denylist, token, now).error.exc)
         == JsonResponse(401, map["detail" := AuthErrorDetail], map["WWW-Authenticate" := "Bearer"])
  {
  }

  /** A refresh cookie refused for any reason other than a malformed `jti`
      reaches the client as the same 401 with a Bearer challenge. */
  lemma RefreshFailureIs401(sessions: seq<Session>, users: seq<User>, refreshToken: Credential, now: int)
    requires UniqueIds(sessions) && UniqueIds(users) && SessionsOwned(sessions, users)
    requires GetValidSessionFromRefreshToken(sessions, users, refreshToken, now).Failure?
    ensures var e := GetValidSessionFromRefreshToken(sessions, users, refreshToken, now).error;
      e != ValueError ==>
      && e == Custom(InvalidSession)
      && CustomExceptionHandler(e.exc)
         == JsonResponse(401, map["detail" := AuthErrorDetail], map["WWW-Authenticate" := "Bearer"])
  {
  }
}
