/** The `users` table: the `User` entity, its defaults and constraints, and the repository
    calls the auth layer makes on it (findOne, create, save). */
module Users {
  import opened Wrappers

  /** One row of the `users` table. `password` and `googleId` are nullable columns. */
  datatype User = User(
    id: string,
    email: string,
    firstName: string,
    lastName: string,
    password: Option<string>,
    isEmailVerified: bool,
    googleId: Option<string>)

  /** `Omit<User, 'password'>`: what callers are given back. It has no field for the secret. */
  datatype UserView = UserView(
    id: string,
    email: string,
    firstName: string,
    lastName: string,
    isEmailVerified: bool,
    googleId: Option<string>)

  /** `const { password: _, ...result } = user` */
  function View(u: User): (v: UserView)
    ensures v.id == u.id && v.email == u.email && v.firstName == u.firstName && v.lastName == u.lastName
    ensures v.isEmailVerified == u.isEmailVerified && v.googleId == u.googleId
  {
    UserView(u.id, u.email, u.firstName, u.lastName, u.isEmailVerified, u.googleId)
  }

  /** The view depends on every column except the password. */
  lemma ViewHidesPassword(a: User, b: User)
    ensures View(a) == View(b) <==> a.(password := b.password) == b
  {
  }

  /** `!user.password` is true for a missing and for an empty password alike. */
  predicate HasPassword(u: User)
    ensures u.password.None? ==> !HasPassword(u)
    ensures u.password == Some("") ==> !HasPassword(u)
    ensures u.password.Some? && u.password.value != "" ==> HasPassword(u)
  {
    u.password.Some? && u.password.value != ""
  }

  /** `!user.googleId` is true for a missing and for an empty Google id alike. */
  predicate Linked(u: User)
    ensures u.googleId.None? ==> !Linked(u)
    ensures u.googleId == Some("") ==> !Linked(u)
    ensures u.googleId.Some? && u.googleId.value != "" ==> Linked(u)
  {
    u.googleId.Some? && u.googleId.value != ""
  }

  /** The object literal handed to `repository.create`: the columns it leaves out are undefined. */
  datatype UserDraft = UserDraft(
    email: string,
    firstName: string,
    lastName: string,
    password: Option<string>,
    isEmailVerified: Option<bool>,
    googleId: Option<string>)

  /** The row that an INSERT of a draft produces: the database supplies the generated id and
      the column default of `isEmailVerified`. */
  function Materialize(d: UserDraft, id: string): (u: User)
    ensures u.id == id && u.email == d.email
    ensures u.firstName == d.firstName && u.lastName == d.lastName
    ensures u.password == d.password && u.googleId == d.googleId
    ensures u.isEmailVerified <==> d.isEmailVerified == Some(true)
  {
    User(id, d.email, d.firstName, d.lastName, d.password, d.isEmailVerified.GetOr(false), d.googleId)
  }

  /** The `where` argument of `findOne`. */
  datatype Where = ByEmail(email: string) | ById(id: string)

  predicate Matches(u: User, w: Where) {
    match w
    case ByEmail(e) => u.email == e
    case ById(i) => u.id == i
  }

  /** The position of the first row that matches `w`. */
  function FindIndex(rows: seq<User>, w: Where): (r: Option<nat>)
    ensures r.Some? ==> r.value < |rows| && Matches(rows[r.value], w)
    ensures r.Some? ==> forall k :: 0 <= k < r.value ==> !Matches(rows[k], w)
    ensures r.None? <==> forall k :: 0 <= k < |rows| ==> !Matches(rows[k], w)
  {
    if rows == [] then None
    else if Matches(rows[0], w) then Some(0)
    else
      match FindIndex(rows[1..], w)
      case None => None
      case Some(i) => Some(i + 1)
  }

  /** `repository.findOne({ where })` */
  function FindOne(rows: seq<User>, w: Where): (r: Option<User>)
    ensures r.Some? <==> exists k :: 0 <= k < |rows| && Matches(rows[k], w)
    ensures r.Some? ==> r.value in rows && Matches(r.value, w)
  {
    match FindIndex(rows, w)
    case None => None
    case Some(i) => Some(rows[i])
  }

  /** The table's constraints: `id` is the primary key and `email` is unique. */
  ghost predicate WellFormed(rows: seq<User>) {
    forall i, j :: 0 <= i < j < |rows| ==> rows[i].id != rows[j].id && rows[i].email != rows[j].email
  }

  /** Under the constraints, the row that has a given id or email is the one `findOne` returns. */
  lemma FindOneUnique(rows: seq<User>, k: nat, w: Where)
    requires WellFormed(rows) && k < |rows| && Matches(rows[k], w)
    ensures FindIndex(rows, w) == Some(k)
    ensures FindOne(rows, w) == Some(rows[k])
  {
  }

  /** `save` of a created entity, which has no id yet: an INSERT under the generated id `newId`,
      rejected by the primary key or by the unique email. */
  function SaveNew(rows: seq<User>, d: UserDraft, newId: string): (r: Option<seq<User>>)
    ensures r.Some? <==> forall k :: 0 <= k < |rows| ==> rows[k].id != newId && rows[k].email != d.email
    ensures r.Some? ==> r.value == rows + [Materialize(d, newId)]
    ensures r.Some? && WellFormed(rows) ==> WellFormed(r.value)
  {
    if FindOne(rows, ById(newId)).None? && FindOne(rows, ByEmail(d.email)).None?
    then Some(rows + [Materialize(d, newId)])
    else None
  }

  /** `save` of an entity that carries an id: an UPDATE of the row with that id, rejected when
      another row holds the entity's email; an INSERT when no row has that id. */
  function SaveExisting(rows: seq<User>, u: User): (r: Option<seq<User>>)
    ensures r.Some? ==> u in r.value && |rows| <= |r.value|
    ensures r.Some? && WellFormed(rows) ==> WellFormed(r.value)
    ensures r.Some? <==> forall k :: 0 <= k < |rows| && rows[k].email == u.email ==> FindIndex(rows, ById(u.id)) == Some(k)
    ensures r.Some? && FindIndex(rows, ById(u.id)).Some? ==> r.value == rows[FindIndex(rows, ById(u.id)).value := u]
    ensures r.Some? && FindIndex(rows, ById(u.id)).None? ==> r.value == rows + [u]
  {
    match FindIndex(rows, ById(u.id))
    case Some(i) =>
      if exists k :: 0 <= k < |rows| && k != i && rows[k].email == u.email then None
      else assert rows[i := u][i] == u; Some(rows[i := u])
    case None =>
      if FindOne(rows, ByEmail(u.email)).None? then Some(rows + [u]) else None
  }

  /** Under the constraints, saving a loaded row whose email is unchanged rewrites that row only. */
  lemma SaveExistingUpdates(rows: seq<User>, k: nat, u: User)
    requires WellFormed(rows) && k < |rows|
    requires u.id == rows[k].id && u.email == rows[k].email
    ensures SaveExisting(rows, u) == Some(rows[k := u])
  {
    FindOneUnique(rows, k, ById(u.id));
  }

  /** The only change this subsystem makes to an existing row: linking a Google id to an
      account that has none, which also marks its email verified. */
  ghost predicate RowEvolves(a: User, b: User) {
    b == a || (!Linked(a) && b == a.(googleId := b.googleId, isEmailVerified := true))
  }

  /** No row is removed or reordered, and each row changes only as `RowEvolves` allows. */
  ghost predicate Evolves(before: seq<User>, after: seq<User>) {
    |before| <= |after| && forall k :: 0 <= k < |before| ==> RowEvolves(before[k], after[k])
  }

  lemma EvolvesTransitive(a: seq<User>, b: seq<User>, c: seq<User>)
    requires Evolves(a, b) && Evolves(b, c)
    ensures Evolves(a, c)
  {
    forall k | 0 <= k < |a| ensures RowEvolves(a[k], c[k]) {
      if b[k] != a[k] && c[k] != b[k] {
        assert c[k] == a[k].(googleId := c[k].googleId, isEmailVerified := true);
      }
    }
  }

  /** What a row keeps however it evolves: its id, email, names and password, and a Google id
      once one is set. */
  lemma RowEvolvesKeeps(a: User, b: User)
    requires RowEvolves(a, b)
    ensures b.id == a.id && b.email == a.email && b.password == a.password
    ensures b.firstName == a.firstName && b.lastName == a.lastName
    ensures a.isEmailVerified ==> b.isEmailVerified
    ensures Linked(a) ==> b == a
  {
  }
}
