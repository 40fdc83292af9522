/** The session lookup that eagerly loads the owning user. */
module SessionRepo {
  import opened Models
  import opened BaseRepo
  import opened Database

  datatype SessionWithUser = SessionWithUser(session: Session, user: User)

  /** `select(Session).where(Session.id == id).options(selectinload(Session.user))`
      and `one_or_none()`: the session with this id together with its owner. */
  function GetSessionWithUser(sessions: seq<Session>, users: seq<User>, id: Id): (r: Option<SessionWithUser>)
    requires UniqueIds(sessions) && UniqueIds(users) && SessionsOwned(sessions, users)
    ensures r.Some? <==> HasId(sessions, id)
    ensures r.Some? ==> r.value.session in sessions && r.value.session.id == id
    ensures r.Some? ==> r.value.user in users && r.value.user.id == r.value.session.data.userId
    ensures forall i :: 0 <= i < |sessions| && sessions[i].id == id ==> r.Some? && r.value.session == sessions[i]
  {
    match GetById(sessions, id)
    case None => None
    case Some(s) =>
      assert HasId(users, s.data.userId) by {
        var k :| 0 <= k < |sessions| && sessions[k] == s;
      }
      var owner := GetById(users, s.data.userId);
      Some(SessionWithUser(s, owner.value))
  }
}
