/** `AuthService`'s logic as functions of the `users` table: what each operation returns and
    the table it leaves behind. */
module Auth {
  import opened Wrappers
  import opened HttpErrors
  import opened Users
  import Crypto
  import Jwt
  import GoogleStrategy

  datatype RegisterDto = RegisterDto(email: string, firstName: string, lastName: string, password: string)

  datatype LoginDto = LoginDto(email: string, password: string)

  /** Which repository calls throw during one request (a lost connection, a failed query). */
  datatype Faults = Faults(findFails: bool, saveFails: bool)

  const NoFaults := Faults(false, false)

  /** `{ accessToken, user }` */
  datatype AuthResponse = AuthResponse(accessToken: string, user: UserView)

  /** What a request returns (or throws), and the table it leaves. */
  datatype Step = Step(result: Result<AuthResponse, HttpError>, rows: seq<User>)

  /** `generateToken`: the payload `{ sub: user.id, email: user.email }`, signed at `now`. */
  function GenerateToken(j: Jwt.JwtService, user: UserView, now: int): (t: string)
    ensures Jwt.Sound(j) ==> j.decode(t) == Some(Jwt.JwtPayload(user.id, user.email, Some(now), Some(now + j.expiresIn)))
  {
    Jwt.Sign(j, Jwt.JwtPayload(user.id, user.email, None, None), now)
  }

  /** A generated token verifies, within its lifetime, to exactly the account's id and email. */
  lemma GeneratedTokenVerifies(j: Jwt.JwtService, user: UserView, issuedAt: int, now: int)
    requires Jwt.Sound(j)
    requires issuedAt <= now < issuedAt + j.expiresIn
    ensures Jwt.Verify(j, GenerateToken(j, user, issuedAt), now)
         == Ok(Jwt.JwtPayload(user.id, user.email, Some(issuedAt), Some(issuedAt + j.expiresIn)))
  {
    Jwt.SignThenVerify(j, Jwt.JwtPayload(user.id, user.email, None, None), issuedAt, now);
  }

  /** `validateUser`: the account of that email, without its password, when it has a password
      and the given one compares equal to it; `null` in every other case, a throwing `findOne`
      included. */
  function ValidateUser(h: Crypto.Hasher, rows: seq<User>, email: string, password: string, findFails: bool)
    : (r: Option<UserView>)
    ensures r.Some? ==>
      && !findFails
      && exists k :: 0 <= k < |rows| && rows[k].email == email && HasPassword(rows[k])
                     && Crypto.ComparePasswords(h, password, rows[k].password.value)
                     && r.value == View(rows[k])
  {
    if findFails then None
    else
      match FindOne(rows, ByEmail(email))
      case None => None
      case Some(user) =>
        if !HasPassword(user) then None
        else if !Crypto.ComparePasswords(h, password, user.password.value) then None
        else Some(View(user))
  }

  /** On a well-formed table `validateUser` accepts exactly an account that has a password
      matching the given one. */
  lemma ValidateUserDecides(h: Crypto.Hasher, rows: seq<User>, k: nat, password: string)
    requires WellFormed(rows) && k < |rows|
    ensures ValidateUser(h, rows, rows[k].email, password, false) ==
      if HasPassword(rows[k]) && Crypto.ComparePasswords(h, password, rows[k].password.value)
      then Some(View(rows[k])) else None
  {
    FindOneUnique(rows, k, ByEmail(rows[k].email));
  }

  /** `login`: every rejection of `validateUser` becomes the same `Unauthorized`; an accepted
      account gets a token for its id and email. */
  function Login(h: Crypto.Hasher, j: Jwt.JwtService, rows: seq<User>, dto: LoginDto, now: int, findFails: bool)
    : (r: Result<AuthResponse, HttpError>)
    ensures r.Err? <==> ValidateUser(h, rows, dto.email, dto.password, findFails).None?
    ensures r.Err? ==> r.error == Unauthorized(InvalidCredentials)
    ensures r.Ok? ==>
      && r.value.user == ValidateUser(h, rows, dto.email, dto.password, findFails).value
      && r.value.accessToken == GenerateToken(j, r.value.user, now)
  {
    match ValidateUser(h, rows, dto.email, dto.password, findFails)
    case None => Err(Unauthorized(InvalidCredentials))
    case Some(user) => Ok(AuthResponse(GenerateToken(j, user, now), user))
  }

  /** An unknown email, an account without a password and a wrong password are told apart by
      nothing: each gives the same error and no token. */
  lemma LoginFailsUniformly(h: Crypto.Hasher, j: Jwt.JwtService, rows: seq<User>, dto: LoginDto, now: int)
    requires WellFormed(rows)
    requires
      || (forall k :: 0 <= k < |rows| ==> rows[k].email != dto.email)
      || (exists k :: 0 <= k < |rows| && rows[k].email == dto.email && !HasPassword(rows[k]))
      || (exists k :: 0 <= k < |rows| && rows[k].email == dto.email && HasPassword(rows[k])
                      && !Crypto.ComparePasswords(h, dto.password, rows[k].password.value))
    ensures Login(h, j, rows, dto, now, false) == Err(Unauthorized(InvalidCredentials))
  {
    if k :| 0 <= k < |rows| && rows[k].email == dto.email {
      ValidateUserDecides(h, rows, k, dto.password);
    }
  }

  /** The response to an accepted account. */
  function Respond(j: Jwt.JwtService, user: User, now: int, rows: seq<User>): Step {
    Step(Ok(AuthResponse(GenerateToken(j, View(user), now), View(user))), rows)
  }

  /** The account `register` stores for a fresh email. */
  function Registered(h: Crypto.Hasher, dto: RegisterDto, saltRandom: string, newId: string): User {
    User(newId, dto.email, dto.firstName, dto.lastName,
         Some(Crypto.HashPassword(h, dto.password, saltRandom)), false, None)
  }

  /** `register`: refuses an email already in use before anything is hashed or saved; otherwise
      inserts one account holding the hash of the password, with `isEmailVerified` at its
      default, and answers with a token and the account without its password. */
  function Register(h: Crypto.Hasher, j: Jwt.JwtService, rows: seq<User>, dto: RegisterDto,
                    saltRandom: string, newId: string, now: int, faults: Faults): (s: Step)
    ensures faults.findFails ==> s == Step(Err(InternalServerError), rows)
    ensures !faults.findFails && (exists k :: 0 <= k < |rows| && rows[k].email == dto.email) ==>
      s == Step(Err(BadRequest(EmailInUse)), rows)
    ensures s.result.Err? ==> s.rows == rows
    ensures s.result.Ok? <==>
      && !faults.findFails && !faults.saveFails
      && forall k :: 0 <= k < |rows| ==> rows[k].email != dto.email && rows[k].id != newId
    ensures s.result.Ok? ==> s == Respond(j, Registered(h, dto, saltRandom, newId), now,
                                          rows + [Registered(h, dto, saltRandom, newId)])
    ensures s.result.Err? && !faults.findFails && (forall k :: 0 <= k < |rows| ==> rows[k].email != dto.email) ==>
      s.result.error == BadRequest(RegistrationFailed)
    ensures WellFormed(rows) ==> WellFormed(s.rows)
  {
    if faults.findFails then Step(Err(InternalServerError), rows)
    else if FindOne(rows, ByEmail(dto.email)).Some? then Step(Err(BadRequest(EmailInUse)), rows)
    else
      var hashed := Crypto.HashPassword(h, dto.password, saltRandom);
      var draft := UserDraft(dto.email, dto.firstName, dto.lastName, Some(hashed), None, None);
      var saved := if faults.saveFails then None else SaveNew(rows, draft, newId);
      match saved
      case None => Step(Err(BadRequest(RegistrationFailed)), rows)
      case Some(next) => Respond(j, Materialize(draft, newId), now, next)
  }

  /** The account `googleLogin` creates for an unknown email: no password, verified, linked. */
  function GoogleAccount(dto: GoogleStrategy.GoogleUserDto, newId: string): User {
    User(newId, dto.email, dto.firstName, dto.lastName, None, true, Some(dto.googleId))
  }

  /** An existing account after `googleLogin` links it. */
  function Link(u: User, googleId: string): User {
    u.(googleId := Some(googleId), isEmailVerified := true)
  }

  /** `googleLogin`: links the Google id to an existing account that has none, leaves an
      already linked account alone, and creates a verified account without a password for
      an unknown email. Every thrown error becomes the same `BadRequest`. */
  function GoogleLogin(j: Jwt.JwtService, rows: seq<User>, dto: GoogleStrategy.GoogleUserDto,
                       newId: string, now: int, faults: Faults): (s: Step)
    ensures s.result.Err? ==> s.rows == rows && s.result.error == BadRequest(GoogleAuthFailed)
    ensures faults.findFails ==> s.result.Err?
    ensures s.result.Ok? ==>
      && s.result.value.user.email == dto.email
      && s.result.value.accessToken == GenerateToken(j, s.result.value.user, now)
      && exists k :: 0 <= k < |s.rows| && View(s.rows[k]) == s.result.value.user
    ensures |rows| <= |s.rows|
    ensures faults.saveFails ==>
      (s.result.Ok? <==> !faults.findFails && FindOne(rows, ByEmail(dto.email)).Some?
                         && Linked(FindOne(rows, ByEmail(dto.email)).value))
  {
    if faults.findFails then Step(Err(BadRequest(GoogleAuthFailed)), rows)
    else
      match FindOne(rows, ByEmail(dto.email))
      case Some(user) =>
        if Linked(user) then Respond(j, user, now, rows)
        else
          var linked := Link(user, dto.googleId);
          var saved := if faults.saveFails then None else SaveExisting(rows, linked);
          (match saved
           case None => Step(Err(BadRequest(GoogleAuthFailed)), rows)
           case Some(next) =>
             assert linked in next;
             Respond(j, linked, now, next))
      case None =>
        var draft := UserDraft(dto.email, dto.firstName, dto.lastName, None, Some(true), Some(dto.googleId));
        var saved := if faults.saveFails then None else SaveNew(rows, draft, newId);
        match saved
        case None => Step(Err(BadRequest(GoogleAuthFailed)), rows)
        case Some(next) =>
          assert next[|rows|] == Materialize(draft, newId);
          Respond(j, Materialize(draft, newId), now, next)
  }

  /** An existing account without a Google id gets the incoming one and a verified email;
      its password, names and email stay as they were. */
  lemma GoogleLoginLinks(j: Jwt.JwtService, rows: seq<User>, k: nat, dto: GoogleStrategy.GoogleUserDto,
                         newId: string, now: int)
    requires WellFormed(rows) && k < |rows| && rows[k].email == dto.email && !Linked(rows[k])
    ensures GoogleLogin(j, rows, dto, newId, now, NoFaults)
         == Respond(j, Link(rows[k], dto.googleId), now, rows[k := Link(rows[k], dto.googleId)])
    ensures Link(rows[k], dto.googleId).password == rows[k].password
    ensures Link(rows[k], dto.googleId).firstName == rows[k].firstName
    ensures Link(rows[k], dto.googleId).lastName == rows[k].lastName
    ensures Link(rows[k], dto.googleId).email == rows[k].email
  {
    FindOneUnique(rows, k, ByEmail(dto.email));
    SaveExistingUpdates(rows, k, Link(rows[k], dto.googleId));
  }

  /** An account whose Google id is set is answered as it is, without a save, whatever Google
      id comes in and whether or not a save would fail. */
  lemma GoogleLoginKeepsLinked(j: Jwt.JwtService, rows: seq<User>, k: nat, dto: GoogleStrategy.GoogleUserDto,
                               newId: string, now: int, saveFails: bool)
    requires WellFormed(rows) && k < |rows| && rows[k].email == dto.email && Linked(rows[k])
    ensures GoogleLogin(j, rows, dto, newId, now, Faults(false, saveFails)) == Respond(j, rows[k], now, rows)
  {
    FindOneUnique(rows, k, ByEmail(dto.email));
  }

  /** An unknown email gets exactly one new account: linked, verified, without a password. */
  lemma GoogleLoginCreates(j: Jwt.JwtService, rows: seq<User>, dto: GoogleStrategy.GoogleUserDto,
                           newId: string, now: int)
    requires forall k :: 0 <= k < |rows| ==> rows[k].email != dto.email && rows[k].id != newId
    ensures GoogleLogin(j, rows, dto, newId, now, NoFaults)
         == Respond(j, GoogleAccount(dto, newId), now, rows + [GoogleAccount(dto, newId)])
  {
  }

  /** `googleLogin` keeps the table's constraints and changes it only as `Evolves` allows:
      nothing is removed and a set Google id is never replaced. */
  lemma GoogleLoginEvolves(j: Jwt.JwtService, rows: seq<User>, dto: GoogleStrategy.GoogleUserDto,
                           newId: string, now: int, faults: Faults)
    requires WellFormed(rows)
    ensures WellFormed(GoogleLogin(j, rows, dto, newId, now, faults).rows)
    ensures Evolves(rows, GoogleLogin(j, rows, dto, newId, now, faults).rows)
  {
    var s := GoogleLogin(j, rows, dto, newId, now, faults);
    if !faults.findFails && s.result.Ok? {
      var found := FindIndex(rows, ByEmail(dto.email));
      if found.Some? {
        var k := found.value;
        FindOneUnique(rows, k, ByEmail(dto.email));
        if !Linked(rows[k]) {
          SaveExistingUpdates(rows, k, Link(rows[k], dto.googleId));
          assert s.rows == rows[k := Link(rows[k], dto.googleId)];
        }
      }
    }
  }

  /** `register` keeps the table's constraints and only ever appends. */
  lemma RegisterEvolves(h: Crypto.Hasher, j: Jwt.JwtService, rows: seq<User>, dto: RegisterDto,
                        saltRandom: string, newId: string, now: int, faults: Faults)
    requires WellFormed(rows)
    ensures WellFormed(Register(h, j, rows, dto, saltRandom, newId, now, faults).rows)
    ensures Evolves(rows, Register(h, j, rows, dto, saltRandom, newId, now, faults).rows)
  {
  }
}
