/** `JwtStrategy`: passport-jwt takes the token from the Authorization header and checks its
    signature and expiry; `validate` then resolves the payload's subject to an account. */
module JwtStrategy {
  import opened Wrappers
  import opened HttpErrors
  import opened Users
  import Jwt
  import BearerToken

  /** `validate(payload)`: the account whose id is `payload.sub`, without its password. A
      missing account and a throwing `findOne` are both reported as the same `Unauthorized`. */
  function Validate(rows: seq<User>, payload: Jwt.JwtPayload, findFails: bool): (r: Result<UserView, HttpError>)
    ensures r.Err? ==> r.error == Unauthorized(InvalidToken)
    ensures r.Ok? <==> !findFails && exists k :: 0 <= k < |rows| && rows[k].id == payload.sub
    ensures r.Ok? ==> exists k :: 0 <= k < |rows| && rows[k].id == payload.sub && r.value == View(rows[k])
  {
    if findFails then Err(Unauthorized(InvalidToken))
    else
      match FindOne(rows, ById(payload.sub))
      case None => Err(Unauthorized(InvalidToken))   // 'User not found', rethrown as 'Invalid token'
      case Some(user) => Ok(View(user))
  }

  /** The account is found by the token's subject; the email claim plays no part. */
  lemma ValidateBySubject(rows: seq<User>, k: nat, payload: Jwt.JwtPayload)
    requires WellFormed(rows) && k < |rows| && rows[k].id == payload.sub
    ensures Validate(rows, payload, false) == Ok(View(rows[k]))
  {
    FindOneUnique(rows, k, ById(payload.sub));
  }

  /** The whole strategy on one request: no bearer token, or a token whose signature does not
      check or that has expired, is refused by passport before `validate` runs. */
  function Authenticate(j: Jwt.JwtService, rows: seq<User>, authorization: Option<string>,
                        now: int, findFails: bool): (r: Result<UserView, HttpError>)
    ensures BearerToken.FromAuthHeaderAsBearerToken(authorization).None? ==>
      r == Err(Unauthorized(PassportUnauthorized))
    ensures r.Err? ==> r.error == Unauthorized(PassportUnauthorized) || r.error == Unauthorized(InvalidToken)
    ensures r.Ok? <==>
      && BearerToken.FromAuthHeaderAsBearerToken(authorization).Some?
      && var claims := Jwt.Verify(j, BearerToken.FromAuthHeaderAsBearerToken(authorization).value, now);
         && claims.Ok? && !findFails
         && exists k :: 0 <= k < |rows| && rows[k].id == claims.value.sub
    ensures r.Ok? ==>
      && BearerToken.FromAuthHeaderAsBearerToken(authorization).Some?
      && var claims := Jwt.Verify(j, BearerToken.FromAuthHeaderAsBearerToken(authorization).value, now);
         && claims.Ok?
         && exists k :: 0 <= k < |rows| && rows[k].id == claims.value.sub && r.value == View(rows[k])
  {
    match BearerToken.FromAuthHeaderAsBearerToken(authorization)
    case None => Err(Unauthorized(PassportUnauthorized))
    case Some(token) =>
      match Jwt.Verify(j, token, now)
      case Err(_) => Err(Unauthorized(PassportUnauthorized))
      case Ok(payload) => Validate(rows, payload, findFails)
  }

  /** A bearer token whose signature checks and that has not expired admits the account its
      subject names, without the password. */
  lemma AuthenticateAccepts(j: Jwt.JwtService, rows: seq<User>, authorization: Option<string>, now: int,
                            token: string, payload: Jwt.JwtPayload, k: nat)
    requires BearerToken.FromAuthHeaderAsBearerToken(authorization) == Some(token)
    requires Jwt.Verify(j, token, now) == Ok(payload)
    requires WellFormed(rows) && k < |rows| && rows[k].id == payload.sub
    ensures Authenticate(j, rows, authorization, now, false) == Ok(View(rows[k]))
  {
    ValidateBySubject(rows, k, payload);
  }

  /** An expired token is refused, whatever account it names. */
  lemma ExpiredTokenRefused(j: Jwt.JwtService, rows: seq<User>, token: string, now: int, findFails: bool)
    requires Jwt.Verify(j, token, now) == Err(Jwt.TokenExpired)
    requires BearerToken.IsB64Token(token)
    ensures Authenticate(j, rows, Some(BearerToken.Credentials(1, token)), now, findFails)
         == Err(Unauthorized(PassportUnauthorized))
  {
    BearerToken.BearerCredentialsAccepted(1, token);
  }
}
