/** `AuthService` as the object it is: it holds the injected repository, bcrypt and the JWT
    service, and `register` and `googleLogin` change the repository's table through `save`. */
module Service {
  import opened Wrappers
  import opened HttpErrors
  import opened Users
  import Crypto
  import Jwt
  import GoogleStrategy
  import Auth

  /** The error a repository call throws. */
  datatype QueryError = QueryFailed

  /** TypeORM's `Repository<User>` over the `users` table. */
  class UserRepository {
    var rows: seq<User>

    ghost predicate Valid()
      reads this
    {
      WellFormed(rows)
    }

    constructor ()
      ensures Valid() && rows == []
    {
      rows := [];
    }

    /** `findOne({ where })`; `fails` says whether the query throws. */
    method FindOne(w: Where, fails: bool) returns (r: Result<Option<User>, QueryError>)
      ensures fails ==> r == Err(QueryFailed)
      ensures !fails ==> r.Ok? && (r.value.Some? <==> exists k :: 0 <= k < |rows| && Matches(rows[k], w))
      ensures !fails && r.value.Some? ==> r.value == Users.FindOne(rows, w)
    {
      if fails {
        return Err(QueryFailed);
      }
      r := Ok(Users.FindOne(rows, w));
    }

    /** `save` of a created entity: an INSERT under the generated id `newId`. */
    method SaveNew(d: UserDraft, newId: string, fails: bool) returns (saved: Option<User>)
      requires Valid()
      modifies this
      ensures Valid()
      ensures saved.Some? <==> !fails && Users.SaveNew(old(rows), d, newId).Some?
      ensures saved.Some? ==> saved.value == Materialize(d, newId) && rows == old(rows) + [saved.value]
      ensures saved.None? ==> rows == old(rows)
    {
      if fails {
        return None;
      }
      var next := Users.SaveNew(rows, d, newId);
      if next.None? {
        return None;
      }
      rows := next.value;
      saved := Some(Materialize(d, newId));
    }

    /** `save` of a loaded entity: an UPDATE of the row with its id. */
    method Save(u: User, fails: bool) returns (ok: bool)
      requires Valid()
      modifies this
      ensures Valid()
      ensures ok <==> !fails && Users.SaveExisting(old(rows), u).Some?
      ensures rows == if ok then Users.SaveExisting(old(rows), u).value else old(rows)
    {
      if fails {
        return false;
      }
      var next := Users.SaveExisting(rows, u);
      if next.None? {
        return false;
      }
      rows := next.value;
      ok := true;
    }
  }

  class AuthService {
    const userRepository: UserRepository
    const hasher: Crypto.Hasher
    const jwtService: Jwt.JwtService

    constructor (userRepository: UserRepository, hasher: Crypto.Hasher, jwtService: Jwt.JwtService)
      ensures this.userRepository == userRepository
      ensures this.hasher == hasher && this.jwtService == jwtService
    {
      this.userRepository := userRepository;
      this.hasher := hasher;
      this.jwtService := jwtService;
    }

    /** `register(registerDto)`; the salt's random part, the generated id and the clock are
        parameters. */
    method Register(dto: Auth.RegisterDto, saltRandom: string, newId: string, now: int, faults: Auth.Faults)
      returns (r: Result<Auth.AuthResponse, HttpError>)
      requires userRepository.Valid()
      modifies userRepository
      ensures userRepository.Valid()
      ensures Auth.Step(r, userRepository.rows)
           == Auth.Register(hasher, jwtService, old(userRepository.rows), dto, saltRandom, newId, now, faults)
    {
      var existing := userRepository.FindOne(ByEmail(dto.email), faults.findFails);
      if existing.Err? {
        return Err(InternalServerError);
      }
      if existing.value.Some? {
        return Err(BadRequest(EmailInUse));
      }
      var hashedPassword := Crypto.HashPassword(hasher, dto.password, saltRandom);
      var draft := UserDraft(dto.email, dto.firstName, dto.lastName, Some(hashedPassword), None, None);
      var user := userRepository.SaveNew(draft, newId, faults.saveFails);
      if user.None? {
        return Err(BadRequest(RegistrationFailed));
      }
      var result := View(user.value);
      r := Ok(Auth.AuthResponse(Auth.GenerateToken(jwtService, result, now), result));
    }

    /** `googleLogin(googleUserDto)`: the loaded account is updated in place and saved. */
    method GoogleLogin(dto: GoogleStrategy.GoogleUserDto, newId: string, now: int, faults: Auth.Faults)
      returns (r: Result<Auth.AuthResponse, HttpError>)
      requires userRepository.Valid()
      modifies userRepository
      ensures userRepository.Valid()
      ensures Auth.Step(r, userRepository.rows)
           == Auth.GoogleLogin(jwtService, old(userRepository.rows), dto, newId, now, faults)
    {
      var found := userRepository.FindOne(ByEmail(dto.email), faults.findFails);
      if found.Err? {
        return Err(BadRequest(GoogleAuthFailed));
      }
      var user: User;
      if found.value.Some? {
        user := found.value.value;
        if !Linked(user) {
          user := user.(googleId := Some(dto.googleId));
          user := user.(isEmailVerified := true);
          var ok := userRepository.Save(user, faults.saveFails);
          if !ok {
            return Err(BadRequest(GoogleAuthFailed));
          }
        }
      } else {
        var draft := UserDraft(dto.email, dto.firstName, dto.lastName, None, Some(true), Some(dto.googleId));
        var created := userRepository.SaveNew(draft, newId, faults.saveFails);
        if created.None? {
          return Err(BadRequest(GoogleAuthFailed));
        }
        user := created.value;
      }
      var result := View(user);
      r := Ok(Auth.AuthResponse(Auth.GenerateToken(jwtService, result, now), result));
    }
  }
}
