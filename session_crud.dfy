/** Session rows created, read and deleted directly on the database. */
module SessionCrud {
  import opened Models
  import opened Security
  import opened BaseRepo
  import opened Database
  import opened SessionRepo

  /** The data of a session created at `now`: it expires one refresh-token
      lifetime later. */
  function NewSessionData(settings: Settings, userId: Id, client: RequestInfo, now: int): SessionData
  {
    SessionData(now + Minutes(settings.refreshTokenExpireMinutes), userId, client.userAgent, client.host)
  }

  method CreateSession(db: Db, settings: Settings, userId: Id, client: RequestInfo, now: int) returns (s: Session)
    requires db.Valid() && HasId(db.users.rows, userId)
    modifies db.sessions
    ensures db.Valid()
    ensures s == Row(old(db.sessions.nextId), NewSessionData(settings, userId, client, now))
    ensures !HasId(old(db.sessions.rows), s.id)
    ensures db.sessions.rows == old(db.sessions.rows) + [s]
  {
    OwnedAfterInsert(db.sessions.rows, db.users.rows, Row(db.sessions.nextId, NewSessionData(settings, userId, client, now)));
    s := db.sessions.Create(NewSessionData(settings, userId, client, now));
  }

  /** The same eager-loading query as the repository's, so it is defined
      as that query and its meaning is `GetSessionWithUser`'s contract. */
  function GetSessionById(db: Db, id: Id): (r: Option<SessionWithUser>)
    reads db.users, db.sessions, db.resetTokens
    requires db.Valid()
    ensures r == GetSessionWithUser(db.sessions.rows, db.users.rows, id)
  {
    GetSessionWithUser(db.sessions.rows, db.users.rows, id)
  }

  /** Delete the session with this id if there is one; otherwise do nothing. */
  method DeleteSessionById(db: Db, id: Id)
    requires db.Valid()
    modifies db.sessions
    ensures db.Valid() && db.sessions.nextId == old(db.sessions.nextId)
    ensures db.sessions.rows == Without(old(db.sessions.rows), IdIs(id))
    ensures !HasId(db.sessions.rows, id)
    ensures HasId(old(db.sessions.rows), id) ==> |db.sessions.rows| == |old(db.sessions.rows)| - 1
    ensures !HasId(old(db.sessions.rows), id) ==> db.sessions.rows == old(db.sessions.rows)
  {
    var found := GetSessionById(db, id);
    if found.Some? {
      OwnedAfterRemoval(db.sessions.rows, db.users.rows, IdIs(id));
      var _ := db.sessions.Delete(found.value.session);
    } else {
      WithoutNoMatch(db.sessions.rows, IdIs(id));
    }
  }
}
