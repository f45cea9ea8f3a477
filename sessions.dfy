/** Properties of whole sequences of requests against one `users` table. */
module Sessions {
  import opened Wrappers
  import opened HttpErrors
  import opened Users
  import Crypto
  import Jwt
  import BearerToken
  import GoogleStrategy
  import Auth
  import JwtStrategy

  /** One request to the auth layer, with what its environment supplies: the salt's random
      part, the id the database generates, the clock and the repository calls that throw. */
  datatype Request =
    | RegisterRequest(register: Auth.RegisterDto, saltRandom: string, newId: string, now: int, faults: Auth.Faults)
    | LoginRequest(login: Auth.LoginDto, now: int, faults: Auth.Faults)
    | GoogleLoginRequest(google: GoogleStrategy.GoogleUserDto, newId: string, now: int, faults: Auth.Faults)
    | ProfileRequest(authorization: Option<string>, now: int, faults: Auth.Faults)

  /** The table after one request. */
  function Apply(h: Crypto.Hasher, j: Jwt.JwtService, rows: seq<User>, req: Request): seq<User> {
    match req
    case RegisterRequest(dto, salt, id, now, faults) => Auth.Register(h, j, rows, dto, salt, id, now, faults).rows
    case GoogleLoginRequest(dto, id, now, faults) => Auth.GoogleLogin(j, rows, dto, id, now, faults).rows
    case LoginRequest(_, _, _) => rows
    case ProfileRequest(_, _, _) => rows
  }

  /** The table after a sequence of requests, served one after the other. */
  function Run(h: Crypto.Hasher, j: Jwt.JwtService, rows: seq<User>, reqs: seq<Request>): seq<User>
    decreases |reqs|
  {
    if reqs == [] then rows else Run(h, j, Apply(h, j, rows, reqs[0]), reqs[1..])
  }

  /** Any sequence of requests keeps the table's constraints (ids and emails unique) and changes
      it only as `Evolves` allows: no account is removed, and only linking changes a row. */
  lemma {:induction false} RunEvolves(h: Crypto.Hasher, j: Jwt.JwtService, rows: seq<User>, reqs: seq<Request>)
    requires WellFormed(rows)
    ensures WellFormed(Run(h, j, rows, reqs))
    ensures Evolves(rows, Run(h, j, rows, reqs))
    decreases |reqs|
  {
    if reqs != [] {
      var next := Apply(h, j, rows, reqs[0]);
      match reqs[0] {
        case RegisterRequest(dto, salt, id, now, faults) =>
          Auth.RegisterEvolves(h, j, rows, dto, salt, id, now, faults);
        case GoogleLoginRequest(dto, id, now, faults) =>
          Auth.GoogleLoginEvolves(j, rows, dto, id, now, faults);
        case LoginRequest(_, _, _) =>
        case ProfileRequest(_, _, _) =>
      }
      RunEvolves(h, j, next, reqs[1..]);
      EvolvesTransitive(rows, next, Run(h, j, rows, reqs));
    }
  }

  /** Whatever requests follow, an account keeps its place, id, email, names and password, stays
      verified once verified, and keeps a Google id once one is set. */
  lemma AccountsPersist(h: Crypto.Hasher, j: Jwt.JwtService, rows: seq<User>, reqs: seq<Request>, k: nat)
    requires WellFormed(rows) && k < |rows|
    ensures var after := Run(h, j, rows, reqs);
      && k < |after|
      && after[k].id == rows[k].id && after[k].email == rows[k].email
      && after[k].password == rows[k].password
      && after[k].firstName == rows[k].firstName && after[k].lastName == rows[k].lastName
      && (rows[k].isEmailVerified ==> after[k].isEmailVerified)
      && (Linked(rows[k]) ==> after[k] == rows[k])
  {
    RunEvolves(h, j, rows, reqs);
    RowEvolvesKeeps(rows[k], Run(h, j, rows, reqs)[k]);
  }

  /** Registering an email a second time is refused with 'Email already in use' and leaves the
      table as the first registration left it. */
  lemma SecondRegistrationRefused(h: Crypto.Hasher, j: Jwt.JwtService, rows: seq<User>,
                                  dto: Auth.RegisterDto, salt1: string, id1: string, now1: int,
                                  dto2: Auth.RegisterDto, salt2: string, id2: string, now2: int, saveFails: bool)
    requires Auth.Register(h, j, rows, dto, salt1, id1, now1, Auth.NoFaults).result.Ok?
    requires dto2.email == dto.email
    ensures var first := Auth.Register(h, j, rows, dto, salt1, id1, now1, Auth.NoFaults).rows;
      Auth.Register(h, j, first, dto2, salt2, id2, now2, Auth.Faults(false, saveFails))
        == Auth.Step(Err(BadRequest(EmailInUse)), first)
  {
    var first := Auth.Register(h, j, rows, dto, salt1, id1, now1, Auth.NoFaults).rows;
    assert first[|rows|].email == dto.email;
  }

  /** Base64url characters and the dots of a compact JWS are all characters of a b64token. */
  lemma CompactIsB64Token(t: string)
    requires Jwt.IsCompactSerialization(t)
    ensures BearerToken.IsB64Token(t)
  {
    forall i | 0 <= i < |t| ensures BearerToken.IsB64TokenChar(t[i]) {
      assert Jwt.IsBase64UrlChar(t[i]) || t[i] == '.';
    }
  }

  /** After a registration, logging in with the same email and password succeeds with the
      registered account, and the token it returns, sent back as a bearer token within its
      lifetime, resolves to that same account. */
  lemma LoginAfterRegister(h: Crypto.Hasher, j: Jwt.JwtService, rows: seq<User>, dto: Auth.RegisterDto,
                           salt: string, id: string, registeredAt: int, loginAt: int, requestAt: int)
    requires Crypto.Sound(h) && Jwt.Sound(j) && WellFormed(rows)
    requires Auth.Register(h, j, rows, dto, salt, id, registeredAt, Auth.NoFaults).result.Ok?
    requires loginAt <= requestAt < loginAt + j.expiresIn
    ensures var s := Auth.Register(h, j, rows, dto, salt, id, registeredAt, Auth.NoFaults);
      var login := Auth.Login(h, j, s.rows, Auth.LoginDto(dto.email, dto.password), loginAt, false);
      && login.Ok?
      && login.value.user == s.result.value.user
      && login.value.user.id == id
      && JwtStrategy.Authenticate(j, s.rows, Some(BearerToken.Credentials(1, login.value.accessToken)), requestAt, false)
         == Ok(s.result.value.user)
  {
    var s := Auth.Register(h, j, rows, dto, salt, id, registeredAt, Auth.NoFaults);
    var u := Auth.Registered(h, dto, salt, id);
    assert s.rows == rows + [u] && s.rows[|rows|] == u;
    Auth.RegisterEvolves(h, j, rows, dto, salt, id, registeredAt, Auth.NoFaults);
    Crypto.HashThenCompare(h, dto.password, salt);
    Auth.ValidateUserDecides(h, s.rows, |rows|, dto.password);
    var token := Auth.GenerateToken(j, View(u), loginAt);
    Auth.GeneratedTokenVerifies(j, View(u), loginAt, requestAt);
    CompactIsB64Token(token);
    BearerToken.BearerCredentialsAccepted(1, token);
    JwtStrategy.ValidateBySubject(s.rows, |rows|, Jwt.JwtPayload(id, dto.email, Some(loginAt), Some(loginAt + j.expiresIn)));
  }

  /** A second Google login with the same profile changes nothing and answers with the same
      account. */
  lemma GoogleLoginIdempotent(j: Jwt.JwtService, rows: seq<User>, dto: GoogleStrategy.GoogleUserDto,
                              id1: string, now1: int, id2: string, now2: int, saveFails: bool)
    requires WellFormed(rows) && dto.googleId != ""
    requires Auth.GoogleLogin(j, rows, dto, id1, now1, Auth.NoFaults).result.Ok?
    ensures var first := Auth.GoogleLogin(j, rows, dto, id1, now1, Auth.NoFaults);
      var second := Auth.GoogleLogin(j, first.rows, dto, id2, now2, Auth.Faults(false, saveFails));
      && second.rows == first.rows
      && second.result.Ok?
      && second.result.value.user == first.result.value.user
  {
    var first := Auth.GoogleLogin(j, rows, dto, id1, now1, Auth.NoFaults);
    Auth.GoogleLoginEvolves(j, rows, dto, id1, now1, Auth.NoFaults);
    var found := FindIndex(rows, ByEmail(dto.email));
    if found.Some? {
      var k := found.value;
      FindOneUnique(rows, k, ByEmail(dto.email));
      if Linked(rows[k]) {
        Auth.GoogleLoginKeepsLinked(j, rows, k, dto, id2, now2, saveFails);
      } else {
        Auth.GoogleLoginLinks(j, rows, k, dto, id1, now1);
        var linked := Auth.Link(rows[k], dto.googleId);
        assert first.rows[k] == linked;
        Auth.GoogleLoginKeepsLinked(j, first.rows, k, dto, id2, now2, saveFails);
      }
    } else {
      Auth.GoogleLoginCreates(j, rows, dto, id1, now1);
      var created := Auth.GoogleAccount(dto, id1);
      assert first.rows[|rows|] == created;
      Auth.GoogleLoginKeepsLinked(j, first.rows, |rows|, dto, id2, now2, saveFails);
    }
  }

  /** The Google callback on a fresh email: the profile's id and first email become a new,
      verified, password-less account, and the answer carries that account. */
  lemma GoogleProfileCreatesAccount(j: Jwt.JwtService, rows: seq<User>, profile: GoogleStrategy.Profile,
                                    newId: string, now: int)
    requires profile.emails.Some? && |profile.emails.value| > 0
    requires forall k :: 0 <= k < |rows| ==> rows[k].email != profile.emails.value[0].value && rows[k].id != newId
    ensures var done := GoogleStrategy.Validate(Some(profile));
      var s := Auth.GoogleLogin(j, rows, done.user.value, newId, now, Auth.NoFaults);
      && s.result.Ok?
      && s.rows == rows + [User(newId, profile.emails.value[0].value, done.user.value.firstName,
                                done.user.value.lastName, None, true, Some(profile.id))]
      && s.result.value.user.id == newId
  {
    var dto := GoogleStrategy.Validate(Some(profile)).user.value;
    Auth.GoogleLoginCreates(j, rows, dto, newId, now);
  }
}
