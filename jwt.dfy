/** The JWT claim set the auth layer signs, and the signing library kept abstract. */
module Jwt {
  import opened Wrappers

  /** `JwtPayload`: `sub` and `email` are set by the auth layer (the `sub` claim of section
      4.1.2 of RFC 7519 holds the account id); `iat` and `exp` are added by the library. */
  datatype JwtPayload = JwtPayload(sub: string, email: string, iat: Option<int>, exp: Option<int>)

  /** The library configured with the secret: `encode` signs a claim set, `decode` gives back
      the claim set of a token whose signature checks and fails otherwise; `expiresIn` is the
      configured token lifetime in seconds. */
  datatype JwtService = JwtService(
    encode: JwtPayload -> string,
    decode: string -> Option<JwtPayload>,
    expiresIn: nat)

  predicate IsBase64UrlChar(c: char) {
    ('A' <= c <= 'Z') || ('a' <= c <= 'z') || ('0' <= c <= '9') || c == '-' || c == '_'
  }

  /** The compact serialization of section 7.1 of RFC 7515: base64url segments joined by dots. */
  predicate IsCompactSerialization(t: string) {
    t != [] && forall i :: 0 <= i < |t| ==> IsBase64UrlChar(t[i]) || t[i] == '.'
  }

  /** A token the service signed is in compact form and decodes to the claim set it was
      signed with. */
  ghost predicate Sound(j: JwtService) {
    forall p :: IsCompactSerialization(j.encode(p)) && j.decode(j.encode(p)) == Some(p)
  }

  /** `jwtService.sign(payload)` at time `now` (in seconds): the library stamps `iat` and `exp`. */
  function Sign(j: JwtService, payload: JwtPayload, now: int): (t: string)
    ensures Sound(j) ==> IsCompactSerialization(t)
    ensures Sound(j) ==> j.decode(t) == Some(payload.(iat := Some(now), exp := Some(now + j.expiresIn)))
  {
    j.encode(payload.(iat := Some(now), exp := Some(now + j.expiresIn)))
  }

  datatype VerifyError = InvalidSignature | TokenExpired

  /** Token verification with `ignoreExpiration: false`: the signature must check, and a token
      that carries `exp` is refused from that second on. */
  function Verify(j: JwtService, token: string, now: int): (r: Result<JwtPayload, VerifyError>)
    ensures r == Err(InvalidSignature) <==> j.decode(token).None?
    ensures r == Err(TokenExpired) <==>
      j.decode(token).Some? && j.decode(token).value.exp.Some? && now >= j.decode(token).value.exp.value
    ensures r.Ok? ==> j.decode(token) == Some(r.value)
  {
    match j.decode(token)
    case None => Err(InvalidSignature)
    case Some(p) =>
      if p.exp.Some? && now >= p.exp.value then Err(TokenExpired) else Ok(p)
  }

  /** A token is accepted from the second it is issued until its lifetime has passed, and
      yields the claims it was signed with, stamped. */
  lemma SignThenVerify(j: JwtService, payload: JwtPayload, issuedAt: int, now: int)
    requires Sound(j)
    requires issuedAt <= now < issuedAt + j.expiresIn
    ensures Verify(j, Sign(j, payload, issuedAt), now)
         == Ok(payload.(iat := Some(issuedAt), exp := Some(issuedAt + j.expiresIn)))
  {
  }

  /** Once its lifetime has passed, a token is refused as expired. */
  lemma ExpiredTokenRefused(j: JwtService, payload: JwtPayload, issuedAt: int, now: int)
    requires Sound(j)
    requires now >= issuedAt + j.expiresIn
    ensures Verify(j, Sign(j, payload, issuedAt), now) == Err(TokenExpired)
  {
  }
}
