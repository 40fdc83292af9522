/** Registration: refuse a taken email, otherwise store the new user. */
module UserService {
  import opened Models
  import opened BaseRepo
  import opened Database
  import opened UserCrud

  const DuplicateEmail: Exception := Http(409, "A user with this email already exists.", map[])

  method RegisterNewUser(db: Db, userIn: UserCreate) returns (r: Result<User, Exception>)
    requires db.Valid()
    modifies db.users
    ensures db.Valid()
    ensures r.Failure? <==> GetUserByEmail(old(db.users.rows), userIn.email).Some?
    ensures r.Failure? ==> r.error == DuplicateEmail && db.users.rows == old(db.users.rows)
    ensures r.Success? ==> r.value == Row(old(db.users.nextId), NewUserData(userIn.email, userIn.password))
    ensures r.Success? ==> !HasId(old(db.users.rows), r.value.id) && db.users.rows == old(db.users.rows) + [r.value]
  {
    var existing := GetUserByEmail(db.users.rows, userIn.email);
    if existing.Some? {
      return Failure(DuplicateEmail);
    }
    var userData := NewUserData(userIn.email, userIn.password);
    ValidAfterNewUser(db, userData);
    var created := db.users.Create(userData);
    r := Success(created);
  }
}
