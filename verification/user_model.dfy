/** The user collection: the User record with its schema rules (required
    `name`, `email` and `password`, unique `email`, a default `pic`), and the
    lookups the controllers and the auth gate run against it. */
module UserModel {
  import opened Wrappers
  import opened Mongo

  /** The avatar stored when a new user supplies none. */
  const DefaultPic := "https://iconarchive.com/download/i107128/Flat-Design-Icons/Flat-User-Profile-2-icon.ico"

  datatype User = User(id: UserId, name: string, email: string, password: string, pic: string)

  /** A user as the auth gate binds it: every field but the password. */
  datatype PublicUser = PublicUser(id: UserId, name: string, email: string, pic: string)

  type UserStore = seq<User>

  function Public(u: User): PublicUser {
    PublicUser(u.id, u.name, u.email, u.pic)
  }

  /** The required-field rule: a required string must be non-empty. */
  predicate SchemaValid(u: User) {
    u.name != "" && u.email != "" && u.password != ""
  }

  /** The unique index on `email`. */
  predicate UniqueEmails(users: UserStore) {
    forall i, j :: 0 <= i < |users| && 0 <= j < |users| && users[i].email == users[j].email ==> i == j
  }

  predicate UniqueUserIds(users: UserStore) {
    forall i, j :: 0 <= i < |users| && 0 <= j < |users| && users[i].id == users[j].id ==> i == j
  }

  /** Every stored user satisfies the schema, and ids and emails are unique. */
  predicate WellFormed(users: UserStore) {
    && (forall i :: 0 <= i < |users| ==> SchemaValid(users[i]))
    && UniqueEmails(users)
    && UniqueUserIds(users)
  }

  /** The stored avatar: the supplied one, or the default when the field is
      absent. An empty string is supplied, so it is stored as is. */
  function PicOrDefault(pic: Option<string>): (p: string)
    ensures pic.None? ==> p == DefaultPic
    ensures pic.Some? ==> p == pic.value
  {
    pic.GetOr(DefaultPic)
  }

  /** The id a newly created user receives. */
  function NewUserId(users: UserStore): (id: UserId)
    ensures id != ""
    ensures forall i :: 0 <= i < |users| ==> users[i].id != id
  {
    FreshIdFor(users, (u: User) => u.id)
  }

  /** `findOne({ email })`: the first user with this email. An absent email is
      queried as null, which no stored user's email equals. */
  function FindByEmail(users: UserStore, email: Option<string>): (r: Option<nat>)
    ensures r.Some? ==> r.value < |users| && email == Some(users[r.value].email)
    ensures r.Some? ==> forall k :: 0 <= k < r.value ==> email != Some(users[k].email)
    ensures r.None? <==> forall k :: 0 <= k < |users| ==> email != Some(users[k].email)
  {
    FindFirst(users, (u: User) => email == Some(u.email))
  }

  /** `findById(id).select('-password')`: the user with this id, without the
      password, or None. */
  function FindPublicById(users: UserStore, id: UserId): (r: Option<PublicUser>)
    ensures r.Some? ==> exists i :: 0 <= i < |users| && users[i].id == id && r.value == Public(users[i])
    ensures r.None? <==> forall k :: 0 <= k < |users| ==> users[k].id != id
  {
    match FindFirst(users, (u: User) => u.id == id)
    case None => None
    case Some(i) => Some(Public(users[i]))
  }

  /** Under the unique index, the first user with an email is the only one. */
  lemma {:induction false} FindByEmailUnique(users: UserStore, i: nat)
    requires UniqueEmails(users)
    requires i < |users|
    ensures FindByEmail(users, Some(users[i].email)) == Some(i)
  {}
}
