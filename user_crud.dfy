/** User rows created and looked up directly on the database. */
module UserCrud {
  import opened Models
  import opened Security
  import opened BaseRepo
  import opened Database

  /** The first user whose email matches; the unique index makes it the only one. */
  function GetUserByEmail(users: seq<User>, email: string): (r: Option<User>)
    ensures r.None? <==> forall i :: 0 <= i < |users| ==> users[i].data.email != email
    ensures r.Some? ==> r.value in users && r.value.data.email == email
    ensures UniqueEmails(users) ==> forall i :: 0 <= i < |users| && users[i].data.email == email ==> r == Some(users[i])
  {
    var r := GetByField(users, EmailOf, email);
    assert UniqueEmails(users) ==> forall i :: 0 <= i < |users| && users[i].data.email == email ==> r == Some(users[i]) by {
      if UniqueEmails(users) && r.Some? {
        var k :| 0 <= k < |users| && users[k] == r.value && forall j :: 0 <= j < k ==> users[j].data.email != email;
        forall i | 0 <= i < |users| && users[i].data.email == email ensures r == Some(users[i]) {
          assert !(i < k) && !(k < i);
        }
      }
    }
    r
  }

  /** The row stored for a new user: the email, the password's hash, and
      the default active flag. */
  function NewUserData(email: string, password: string): UserData
  {
    UserData(email, GetPasswordHash(password), true)
  }

  /** Adding a user whose email is not taken keeps the database valid. */
  lemma ValidAfterNewUser(db: Db, d: UserData)
    requires db.Valid() && GetUserByEmail(db.users.rows, d.email).None?
    ensures UniqueEmails(db.users.rows + [Row(db.users.nextId, d)])
    ensures SessionsOwned(db.sessions.rows, db.users.rows + [Row(db.users.nextId, d)])
    ensures TokensOwned(db.resetTokens.rows, db.users.rows + [Row(db.users.nextId, d)])
  {
    OwnedAfterNewUser(db.sessions.rows, db.users.rows, Row(db.users.nextId, d));
    TokensOwnedAfterNewUser(db.resetTokens.rows, db.users.rows, Row(db.users.nextId, d));
  }

  /** Insert a user; a taken email violates the unique index and the
      database refuses the row. */
  method CreateUser(db: Db, userIn: UserCreate) returns (r: Result<User, Exception>)
    requires db.Valid()
    modifies db.users
    ensures db.Valid()
    ensures r.Failure? <==> GetUserByEmail(old(db.users.rows), userIn.email).Some?
    ensures r.Failure? ==> r.error == IntegrityError && db.users.rows == old(db.users.rows)
    ensures r.Success? ==> r.value == Row(old(db.users.nextId), NewUserData(userIn.email, userIn.password))
    ensures r.Success? ==> !HasId(old(db.users.rows), r.value.id) && db.users.rows == old(db.users.rows) + [r.value]
  {
    if GetUserByEmail(db.users.rows, userIn.email).Some? {
      return Failure(IntegrityError);
    }
    var data := NewUserData(userIn.email, userIn.password);
    ValidAfterNewUser(db, data);
    var u := db.users.Create(data);
    r := Success(u);
  }
}
