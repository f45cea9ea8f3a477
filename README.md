# Account reconciliation in a NestJS auth service, modelled in Dafny

This project models the authentication core of a NestJS service that supports both local
email/password login and Google sign-in. The core is `AuthService`: it validates credentials,
registers accounts, logs users in, and reconciles a Google identity with a stored account.
Around it sit the two passport strategies: one maps a Google profile to a `GoogleUserDto`,
the other resolves a verified JWT to an account. Beneath it is the `User` entity, with its
column defaults and uniqueness constraints.

Layout, one module per source component:

- `users.dfy` (`Users`): the `User` row and `UserView` (`Omit<User, 'password'>`, a type with no
  password field). Also the `create` draft and its column defaults, and TypeORM's `findOne`/`save`
  over the table as a `seq<User>`. `WellFormed` is the primary-key and unique-email constraint.
  `Evolves` says how rows may change: none removed, and only Google linking changes a row.
- `crypto.dfy` (`Crypto`): bcrypt, kept abstract. It is a pair of functions with the one property
  the service relies on (`Sound`): a hash is non-empty and accepts its own password. The salt cost
  is 10.
- `jwt.dfy` (`Jwt`): the `JwtPayload` claim set and the signing library, kept abstract. A token
  is an encoding of a claim set. `Sign` stamps `iat`/`exp`. `Verify` checks the signature, then
  expiry (`ignoreExpiration: false`).
- `bearer.dfy` (`BearerToken`): how passport-jwt takes the token out of the `Authorization` header.
- `google_strategy.dfy` (`GoogleStrategy`): `GoogleStrategy.validate` and its `done` callback.
- `jwt_strategy.dfy` (`JwtStrategy`): `JwtStrategy.validate`, and the whole strategy on one request.
- `auth.dfy` (`Auth`): `validateUser`, `login`, `register`, `googleLogin` and `generateToken` as
  functions of the table. Each returns the result or thrown exception and the table it leaves.
- `service.dfy` (`Service`): `AuthService` and `UserRepository` as classes. `register` and
  `googleLogin` are imperative methods that change the repository through `save`. `googleLogin`
  updates the loaded account before saving it. Each method is proved equal to its function in `Auth`.
- `sessions.dfy` (`Sessions`): properties of whole sequences of requests.

Values the environment supplies are parameters:

- the random part of the bcrypt salt;
- the uuid the database generates;
- the clock (seconds);
- which repository calls throw (`Auth.Faults`).

The read-only operations (`validateUser`, `login`, `JwtStrategy.validate`) are functions of the
table's contents, `userRepository.rows`.

The model keeps these behaviours of the code:

- A `register` that loses the race at `save` reports 'Registration failed'.
- An email that is already in use is a `BadRequest('Email already in use')`.
- `findOne` throwing inside `register` is not caught, so it surfaces as an unclassified error
  (`InternalServerError`).
- A Google profile without an email is refused by the strategy (`done(Error(...), null)`).
  `googleLogin` itself never checks for it.
- `googleLogin` logs into an already linked account even when a different Google id comes in.
  It neither compares nor overwrites the id.
- JavaScript truthiness is kept: `!user.password` and `!user.googleId` treat an empty string like
  a missing value (`Users.HasPassword`, `Users.Linked`). An empty stored Google id can therefore be
  replaced. A non-empty one never is.

## Model

| member | source | states |
|---|---|---|
| `Users.Materialize` | src/users/entities/user.entity.ts:26-27 | an inserted draft gets the generated id and all its columns; `isEmailVerified` is true only when the draft sets it true (the column defaults to false) |
| `Users.View` | src/auth/services/auth.service.ts:46 | `Omit<User, 'password'>` keeps every other column of the row |
| `Users.ViewHidesPassword` | src/auth/services/auth.service.ts:46 | two rows have the same view exactly when they differ at most in their password |
| `Users.HasPassword` | src/auth/services/auth.service.ts:36 | `!user.password` holds for a missing and for an empty password, and fails for any other |
| `Users.Linked` | src/auth/services/auth.service.ts:128 | `!user.googleId` holds for a missing and for an empty Google id, and fails for any other |
| `Users.FindIndex` | src/auth/services/auth.service.ts:34 | `findOne` picks the row matching the `where` clause (the first, and with ids and emails unique the only one), and finds nothing exactly when no row matches |
| `Users.FindOne` | src/auth/strategies/jwt.strategy.ts:36 | the row found is one of the table's rows and matches the clause; a row is found iff some row matches |
| `Users.FindOneUnique` | src/users/entities/user.entity.ts:10-14 | with ids and emails unique, the row holding a given id or email is the one `findOne` returns |
| `Users.SaveNew` | src/auth/services/auth.service.ts:80 | an INSERT succeeds iff no row has the generated id or the email; it appends exactly the materialized draft and keeps ids and emails unique |
| `Users.SaveExisting` | src/auth/services/auth.service.ts:131 | a save of an entity with an id succeeds exactly when no other row holds its email; it then overwrites the row with that id, or appends the entity when no row has it; no row is removed and ids and emails stay unique |
| `Users.SaveExistingUpdates` | src/auth/services/auth.service.ts:129-131 | saving a loaded account whose email is unchanged rewrites that one row and nothing else |
| `Users.RowEvolvesKeeps` | src/auth/services/auth.service.ts:128-130 | linking keeps id, email, names and password, never un-verifies, and leaves a set Google id untouched |
| `Crypto.HashPassword` | src/auth/services/auth.service.ts:177-180 | a salt of cost `SaltRounds` = 10 (its random part a parameter) is hashed with the password; with sound bcrypt the hash is non-empty and accepts that password |
| `Crypto.ComparePasswords` | src/auth/services/auth.service.ts:188-190 | bcrypt's `compare`, passed through unchanged: with sound bcrypt it accepts a password against any hash made from it |
| `Crypto.HashThenCompare` | src/auth/services/auth.service.ts:177-190 | the stored hash of a password is non-empty and `comparePasswords` accepts that password against it |
| `Jwt.Verify` | src/auth/strategies/jwt.strategy.ts:24-25 | a token is refused as a bad signature iff it does not decode, as expired iff it carries `exp` and now is at or past it; otherwise its claims are returned |
| `Jwt.Sign` | src/auth/services/auth.service.ts:169 | with a sound signer the token is a compact serialization that decodes to the payload stamped with `iat` = now and `exp` = now + lifetime |
| `Jwt.SignThenVerify` | src/auth/services/auth.service.ts:169 | a signed claim set verifies, within its lifetime, to itself with `iat`/`exp` stamped |
| `Jwt.ExpiredTokenRefused` | src/auth/strategies/jwt.strategy.ts:24 | once the lifetime has passed a signed token is refused as expired |
| `BearerToken.TrimStart` | src/auth/strategies/jwt.strategy.ts:23 | the result is the input without its leading whitespace: a suffix, everything dropped is whitespace, it does not start with whitespace |
| `BearerToken.Word` | src/auth/strategies/jwt.strategy.ts:23 | the result is the longest whitespace-free prefix of the input |
| `BearerToken.ParseAuthHeader` | src/auth/strategies/jwt.strategy.ts:23 | a parsed header is leading whitespace, the scheme, non-empty whitespace, the value, then nothing or whitespace: scheme and value are its first two words |
| `BearerToken.ParseFirstTwoWords` | src/auth/strategies/jwt.strategy.ts:23 | every header of at least two words parses into exactly its first two words |
| `BearerToken.ParseAuthHeaderNone` | src/auth/strategies/jwt.strategy.ts:23 | a header that does not parse has fewer than two words |
| `BearerToken.FromAuthHeaderAsBearerToken` | src/auth/strategies/jwt.strategy.ts:23 | a token is only ever taken from a present header whose first word lowercases to `bearer`, and it is the header's second word |
| `BearerToken.BearerTokenOfHeader` | src/auth/strategies/jwt.strategy.ts:23 | a header of at least two words yields its second word exactly when its first word is `bearer` in some letter case, and nothing otherwise |
| `BearerToken.ParseCredentials` | src/auth/strategies/jwt.strategy.ts:23 | "Bearer", one or more spaces and a token parse to scheme "Bearer" and that token |
| `BearerToken.BearerCredentialsAccepted` | src/auth/strategies/jwt.strategy.ts:23 | every header written as section 2.1 of RFC 6750 writes it yields exactly its token |
| `GoogleStrategy.Validate` | src/auth/strategies/google.strategy.ts:32-60 | `done` gets exactly one of an error and a DTO; a null profile is a TypeError; missing or empty `emails` is 'Google profile missing email'; otherwise `googleId` is the profile id, `email` the first email, names default to '', `picture` is the first photo or null |
| `JwtStrategy.Validate` | src/auth/strategies/jwt.strategy.ts:34-48 | success iff the query does not throw and some account has the id `sub`, and then it is that account without its password; every failure is the same `Unauthorized('Invalid token')` |
| `JwtStrategy.ValidateBySubject` | src/auth/strategies/jwt.strategy.ts:36 | the account resolved is the one whose id is the token's subject, whatever its email claim |
| `JwtStrategy.Authenticate` | src/auth/strategies/jwt.strategy.ts:22-26 | no bearer token means `Unauthorized` without a lookup; a request succeeds exactly when its bearer token verifies, the lookup does not throw and some account has the token's subject as id, and the result is that account without its password |
| `JwtStrategy.AuthenticateAccepts` | src/auth/strategies/jwt.strategy.ts:22-26 | a bearer token that verifies admits exactly the account its subject names, without the password |
| `JwtStrategy.ExpiredTokenRefused` | src/auth/strategies/jwt.strategy.ts:24 | a well-formed bearer header carrying an expired token is refused, whatever account it names |
| `Auth.GenerateToken` | src/auth/services/auth.service.ts:163-170 | the token decodes to `{sub: user.id, email: user.email}` plus the library's `iat`/`exp` |
| `Auth.GeneratedTokenVerifies` | src/auth/services/auth.service.ts:163-169 | the token of an account verifies, within its lifetime, to exactly `{sub: id, email}` plus the library's `iat`/`exp` |
| `Auth.ValidateUser` | src/auth/services/auth.service.ts:32-52 | an account is returned only when the query did not throw and a row with that email has a password that compares equal; what is returned is that row without its password |
| `Auth.ValidateUserDecides` | src/auth/services/auth.service.ts:34-47 | on a table with unique emails `validateUser` accepts exactly an account whose password is set and matches |
| `Auth.Login` | src/auth/services/auth.service.ts:99-112 | `login` fails iff `validateUser` yields null, always with `Unauthorized('Invalid credentials')`; on success it returns that user and a token for its id and email |
| `Auth.LoginFailsUniformly` | src/auth/services/auth.service.ts:36-44 | unknown email, account without password and wrong password all give the identical error and no token |
| `Auth.Register` | src/auth/services/auth.service.ts:59-92 | a throwing lookup escapes; a taken email is 'Email already in use' with the table unchanged; success iff nothing throws and neither email nor generated id is taken, and then exactly one account with the names, the hash of the password, `isEmailVerified` false and no Google id is appended and returned without password; a failed save is 'Registration failed' with the table unchanged |
| `Auth.GoogleLogin` | src/auth/services/auth.service.ts:119-156 | every failure is 'Google authentication failed' with the table unchanged; a throwing lookup fails, and a throwing save fails the call exactly when a save was needed (the account is new or not yet linked); a success returns an account of the table with the incoming email and a token for it; the table never shrinks (`Auth.GoogleLoginEvolves` states that no row is removed) |
| `Auth.GoogleLoginLinks` | src/auth/services/auth.service.ts:126-132 | an account without a Google id gets the incoming id and `isEmailVerified` true, and only that row changes; password, names and email are kept |
| `Auth.GoogleLoginKeepsLinked` | src/auth/services/auth.service.ts:128 | an account whose Google id is set is answered without a save and unchanged, whatever id comes in |
| `Auth.GoogleLoginCreates` | src/auth/services/auth.service.ts:133-143 | an unknown email gets exactly one new account with the Google id, verified, without a password |
| `Auth.GoogleLoginEvolves` | src/auth/services/auth.service.ts:119-156 | `googleLogin` keeps ids and emails unique and only ever appends or links |
| `Auth.RegisterEvolves` | src/auth/services/auth.service.ts:59-92 | `register` keeps ids and emails unique and only ever appends |
| `Service.UserRepository.constructor` | src/users/users.module.ts:9 | a new repository holds an empty, well-formed table |
| `Service.UserRepository.FindOne` | src/auth/services/auth.service.ts:63 | a throwing query is an error; otherwise a row is found iff one matches, and it is the only matching row (ids and emails are unique) |
| `Service.UserRepository.SaveNew` | src/auth/services/auth.service.ts:80 | an INSERT either appends exactly the materialized draft or fails and changes nothing; the constraints hold after |
| `Service.UserRepository.Save` | src/auth/services/auth.service.ts:131 | a save of a loaded entity changes the table exactly as `SaveExisting` does, or fails and changes nothing |
| `Service.AuthService.constructor` | src/auth/services/auth.service.ts:19-24 | the service holds the repository, bcrypt and the JWT service it is given |
| `Service.AuthService.Register` | src/auth/services/auth.service.ts:59-92 | the imperative `register` returns and leaves exactly what `Auth.Register` states, and keeps the table's constraints |
| `Service.AuthService.GoogleLogin` | src/auth/services/auth.service.ts:119-156 | the imperative `googleLogin`, updating the loaded account in place before saving, returns and leaves exactly what `Auth.GoogleLogin` states |
| `Sessions.RunEvolves` | src/auth/services/auth.service.ts:59-156 | after any sequence of requests ids and emails are still unique, no account has been removed and rows changed only by linking |
| `Sessions.AccountsPersist` | src/auth/services/auth.service.ts:126-132 | whatever requests follow, an account keeps its id, email, names and password, stays verified, and a set Google id is never overwritten |
| `Sessions.SecondRegistrationRefused` | src/auth/services/auth.service.ts:63-66 | registering an email a second time is 'Email already in use' and leaves the table as it was |
| `Sessions.CompactIsB64Token` | src/auth/strategies/jwt.strategy.ts:23 | a compact JWS consists only of characters a bearer token may hold |
| `Sessions.LoginAfterRegister` | src/auth/services/auth.service.ts:59-112 | after a registration, login with the same credentials returns the registered account with its new id, and its token sent as a bearer header resolves to that account |
| `Sessions.GoogleLoginIdempotent` | src/auth/services/auth.service.ts:126-132 | a second Google login with the same profile changes nothing and returns the same account |
| `Sessions.GoogleProfileCreatesAccount` | src/auth/strategies/google.strategy.ts:46-52 | on a fresh email the profile id and first email become a new verified account without a password, which is returned |

## Left out

- Concurrency and promises: every operation runs alone, start to end. The check-then-save race in
  `register` and a simultaneous first Google login are not modelled.
- bcrypt and JWT signing are kept abstract (`Crypto.Hasher`, `Jwt.JwtService`), with only the
  properties the service relies on. Hash cost, salting and HMAC are not modelled, so tampering
  with a token appears only as "does not decode". Tokens lack `nbf`, `aud` and clock tolerance.
- Auth.Register: does not state that the plaintext password is never stored. With bcrypt kept
  abstract, the model only states that the stored value is the hash of the password.
- Timestamps (`createdAt`, `updatedAt`) and uuid generation: the generated id is a parameter, and
  an INSERT with an id already in use fails as the primary key would make it fail.
- Logging (`LoggerService`): dropped. A logger that throws, and a `done` callback that throws
  (which would make `validate` call `done` a second time), are not modelled.
- A `compare` or `hash` call that throws is not modelled. bcrypt is total here.
- Auth.Register: `jwtService.sign` never throws here. In the source it runs inside the `try`, after
  the save (auth.service.ts:79-87), so a throwing signer would report 'Registration failed' with the
  account already stored.
- Auth.Login: `jwtService.sign` never throws here. In the source, a throwing signer at
  auth.service.ts:109 runs outside any `try` and escapes `login` as an unclassified error.
- Auth.GoogleLogin: `jwtService.sign` never throws here. In the source it runs inside the `try`,
  after any save (auth.service.ts:142-151), so a throwing signer would report 'Google authentication
  failed' with the new or linked account already stored.
- The token lifetime comes from `auth.module.ts`, which is not part of this model. It is the
  `expiresIn` field of `Jwt.JwtService`.
- Bearer extraction follows passport-jwt's rule, whose text is not part of this model: the first two
  whitespace-separated words of the header, with the scheme compared to `bearer` ignoring case.
  Whitespace is JavaScript's `\s` set.
- `JwtAuthGuard` turning a rejection into `false`, `LocalStrategy`, the other guards and the
  `CurrentUser` decorator are thin wrappers and are not modelled. The controller (routing,
  redirects), request-body validation (class-validator, the password pattern), configuration and
  bootstrap are transport or wiring and are left out too.
- Profile fields whose `value` is missing (`emails[0].value` undefined) are not modelled. Entries
  always carry a string.
