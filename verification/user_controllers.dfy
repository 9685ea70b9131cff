/** Registration and login. Token signing and password checking are
    cryptography outside the model: they arrive as the functions `sign` (user
    id to token) and `matchPassword` (stored user and supplied password to
    yes/no). */
module UserControllers {
  import opened Wrappers
  import opened Mongo
  import opened Http
  import opened UserModel

  /** The JSON body of a successful registration or login. */
  datatype UserReply = UserReply(id: UserId, name: string, email: string, pic: string, token: string)

  datatype Outcome = Outcome(users: UserStore, response: Response<UserReply>)

  const FillAllFields := "Please Enter all the fields"
  const UserExists := "User already exists"
  const InvalidCredentials := "Invalid email or password"

  function Reply(u: User, sign: UserId -> string): UserReply {
    UserReply(u.id, u.name, u.email, u.pic, sign(u.id))
  }

  /** Register a user: all of `name`, `email` and `password` are needed, the
      email must be new; `pic` is optional. */
  function RegisterUser(users: UserStore, name: Option<string>, email: Option<string>,
                        password: Option<string>, pic: Option<string>, sign: UserId -> string): (o: Outcome)
    ensures !Truthy(name) || !Truthy(email) || !Truthy(password) ==>
      o == Outcome(users, Error(StatusBadRequest, FillAllFields))
    ensures Truthy(name) && Truthy(email) && Truthy(password) && (exists k :: 0 <= k < |users| && users[k].email == email.value) ==>
      o == Outcome(users, Error(StatusBadRequest, UserExists))
    ensures Truthy(name) && Truthy(email) && Truthy(password) && (forall k :: 0 <= k < |users| ==> users[k].email != email.value) ==>
      && |o.users| == |users| + 1
      && o.users[..|users|] == users
      && o.users[|users|].name == name.value
      && o.users[|users|].email == email.value
      && o.users[|users|].password == password.value
      && o.users[|users|].pic == (if pic.None? then DefaultPic else pic.value)
      && (forall k :: 0 <= k < |users| ==> users[k].id != o.users[|users|].id)
      && o.response == Ok(StatusCreated, UserReply(o.users[|users|].id, name.value, email.value,
                                                   o.users[|users|].pic, sign(o.users[|users|].id)))
    ensures WellFormed(users) ==> WellFormed(o.users)
  {
    if !Truthy(name) || !Truthy(email) || !Truthy(password) then
      Outcome(users, Error(StatusBadRequest, FillAllFields))
    else if FindByEmail(users, email).Some? then
      Outcome(users, Error(StatusBadRequest, UserExists))
    else
      var u := User(NewUserId(users), name.value, email.value, password.value, PicOrDefault(pic));
      Outcome(users + [u], Ok(StatusCreated, Reply(u, sign)))
  }

  /** Log in: the first user with the email, if the password matches it. An
      unknown email and a wrong password give the same answer. The store is
      only read. */
  function AuthUser(users: UserStore, email: Option<string>, password: Option<string>,
                    matchPassword: (User, Option<string>) -> bool, sign: UserId -> string): (r: Response<UserReply>)
    ensures r.Ok? <==> exists i :: 0 <= i < |users| && email == Some(users[i].email) && matchPassword(users[i], password)
                                   && forall k :: 0 <= k < i ==> email != Some(users[k].email)
    ensures r.Ok? ==> exists i :: 0 <= i < |users| && email == Some(users[i].email) && matchPassword(users[i], password)
                                   && (forall k :: 0 <= k < i ==> email != Some(users[k].email))
                                   && r == Ok(StatusOk, Reply(users[i], sign))
    ensures !r.Ok? ==> r == Error(StatusUnauthorized, InvalidCredentials)
  {
    match FindByEmail(users, email)
    case Some(i) =>
      if matchPassword(users[i], password) then Ok(StatusOk, Reply(users[i], sign))
      else Error(StatusUnauthorized, InvalidCredentials)
    case None => Error(StatusUnauthorized, InvalidCredentials)
  }

  /** In a store that keeps the unique index, login succeeds exactly when some
      user has the email and the password matches that user. */
  lemma AuthUserUnique(users: UserStore, email: string, password: Option<string>,
                       matchPassword: (User, Option<string>) -> bool, sign: UserId -> string)
    requires UniqueEmails(users)
    ensures AuthUser(users, Some(email), password, matchPassword, sign).Ok? <==>
      exists i :: 0 <= i < |users| && users[i].email == email && matchPassword(users[i], password)
  {}

  /** A registered user can log in with the password they registered with,
      provided the password check accepts it, and gets their own record back. */
  lemma RegisterThenLogin(users: UserStore, name: string, email: string, password: string, pic: Option<string>,
                          matchPassword: (User, Option<string>) -> bool, sign: UserId -> string)
    requires WellFormed(users)
    requires name != "" && email != "" && password != ""
    requires forall u: User :: u.password == password ==> matchPassword(u, Some(password))
    ensures
      var o := RegisterUser(users, Some(name), Some(email), Some(password), pic, sign);
      o.response.Ok? ==> AuthUser(o.users, Some(email), Some(password), matchPassword, sign) == Ok(StatusOk, o.response.body)
  {}
}
