# Authorization over messaging: the guard decision and the credential rules

This project models two small pieces of decision logic in a NestJS system whose
services talk to each other over RabbitMQ. It proves properties of both.

- **The edge guard** (`AuthGuard.canActivate`, module `Guards`). It rejects
  non-HTTP contexts. It rejects a missing or empty `authorization` header. It
  takes the token as `header.split(' ')[1] ?? false`. It sends
  `{ cmd: 'verify-token' }` with the payload `{ jwt }`. It then maps the reply:
  - an error from the reply stream becomes an UnauthorizedException;
  - a falsy `exp` becomes `false`;
  - otherwise the result is `Date.now() < exp * 1000`.

  The model is the pure function `CanActivate(ctxType, header, reply, nowMs)`.
  The reply stream and the clock are inputs. The result is a `Decision`: the
  verdict plus the command that was sent, if one was. That makes "no command
  is sent" something a contract can state.
- **The string split** the guard relies on (module `JsString`). ECMAScript's
  `split` and `indexOf` for a one-character separator. `Split` is proved to be
  the inverse of `Join`, and to be the only inverse whose pieces are free of
  the separator. The extracted token is proved equal to an independent
  definition based on `indexOf`: the text after the first space, up to the
  next space.
- **The auth service** (`AuthService`, module `Auth`). A class over the user
  table, a `map` keyed by the unique email column, plus the counter behind
  the generated id.
  - bcrypt's `hash` and `compare` are `const` fields, as are the JWT
    service's `signAsync` and `verifyAsync`. They are given to the
    constructor and nothing is known about them. The one relation the model
    ever assumes, `compare(p, hash(p))`, is the predicate `HashSound`. It is
    used only as a hypothesis.
  - `FindByEmail`, `ValidateUser`, `LoginUser` and `VerifyJwt` are functions
    of the table.
  - `RegisterUser` is a method that changes it. It keeps the table
    invariant: every row is stored under its own email, carries a password
    hash, and has a distinct id.
- **The round trip** (module `EndToEnd`). The guard's command is answered by
  `verifyJwt`, and the guard decides on that answer. The auth controller in
  `apps/auth/src/auth.controller.ts` has no `verify-token` handler. So this
  module assumes a responder that passes `payload.jwt` to `verifyJwt`. It
  replies with the returned value, or with an error when `verifyJwt` throws.

The login token is signed over the row that `validateUser` returns.
`findByEmail` selects the password column, so that row still carries its
password hash. `LoginUser`'s contract states this as written: the token is
`sign(u)` for the stored row `u`.

### Where the design description and the code differ (the model follows the code)

- The design says a header with the wrong scheme, or no token after the
  scheme, is denied without any call. The code never checks the scheme word.
  `"Token abc"` sends `"abc"` (`Guards.WrongSchemeExample`,
  `EndToEnd.AcceptedTokenAllowedUntilExpiry`).
- A header without a space still sends the command, with `false` as the
  token (`Guards.NoSpaceExample`, `EndToEnd.HeaderWithoutTokenUnauthorized`).
- A double space sends the empty token (`Guards.DoubleSpaceExample`,
  `EndToEnd.EmptyTokenUnauthorized`).
- The design says every failure reaching the guard collapses to a denial.
  The code turns an error on the reply stream into an UnauthorizedException,
  which is distinct from returning `false`. The model keeps the two apart:
  `Verdict.Unauthorized` versus `Verdict.Deny`.
- Pending-call tables, correlation identifiers, timeouts and manual
  acknowledgment are part of the design description. They live inside
  `@nestjs/microservices` and are not part of these files.

## Model

| member | source | states |
|---|---|---|
| `JsString.Split` | libs/shared/src/guards/auth.guard.ts:73 | `split(' ')` yields exactly one piece more than there are separators, so there is always at least one piece |
| `JsString.JoinSplit` | libs/shared/src/guards/auth.guard.ts:73 | joining the pieces of `split` with the separator gives back the original header |
| `JsString.SplitPiecesFree` | libs/shared/src/guards/auth.guard.ts:73 | no piece of `split` contains the separator |
| `JsString.SplitJoin` | libs/shared/src/guards/auth.guard.ts:73 | splitting a join of separator-free pieces gives back exactly those pieces, so `split` is the unique such inverse of join |
| `JsString.SplitWithoutSeparator` | libs/shared/src/guards/auth.guard.ts:73 | a header with no space splits into itself alone, so index 1 is undefined |
| `JsString.SplitAfterPiece` | libs/shared/src/guards/auth.guard.ts:73 | a space-free word followed by a space is the first piece, and the rest is split on its own |
| `JsString.SplitHead` | libs/shared/src/guards/auth.guard.ts:73 | the first piece ends at the first space (`indexOf`), or is the whole string when there is no space |
| `Guards.ExtractToken` | libs/shared/src/guards/auth.guard.ts:73 | `split(' ')[1] ?? false` equals the `indexOf`-based reference (the text after the first space, up to the next one); it is `false` exactly when the header has no space; a token never contains a space |
| `Guards.TokenIgnoresScheme` | libs/shared/src/guards/auth.guard.ts:69-73 | whatever space-free word comes first, the token is the first piece of what follows the first space |
| `Guards.BearerToken` | libs/shared/src/guards/auth.guard.ts:69-73 | `scheme + " " + token` yields `token` for any space-free scheme and token |
| `Guards.WrongSchemeExample` | libs/shared/src/guards/auth.guard.ts:73 | `"Token abc"` yields `"abc"`: the scheme is not checked |
| `Guards.NoSpaceExample` | libs/shared/src/guards/auth.guard.ts:73 | `"Bearer"` yields the literal `false` |
| `Guards.DoubleSpaceExample` | libs/shared/src/guards/auth.guard.ts:73 | `"Bearer  abc"` yields `""` |
| `Guards.Request` | libs/shared/src/guards/auth.guard.ts:42-98 | no command exactly when the context type is not `'http'` or the header is absent or empty; otherwise exactly one `verify-token` command whose `jwt` is the extracted token, even when that token is `false` or `""` |
| `Guards.OnReply` | libs/shared/src/guards/auth.guard.ts:99-118 | a stream error is the UnauthorizedException "Something went wrong with the jwt validation", never `false`; `true` exactly when `exp` is present, non-zero and `now < exp * 1000` |
| `Guards.CanActivate` | libs/shared/src/guards/auth.guard.ts:28-119 | nothing is sent (and the verdict is `false`) exactly for a non-HTTP context or an absent or empty header; the sent command carries the reference token; allow iff the command was sent and the reply's non-zero `exp` is after the clock; Unauthorized iff sent and the stream failed |
| `Guards.ReplyIgnoredWhenNotSent` | libs/shared/src/guards/auth.guard.ts:42-66 | when no command is sent, any two replies give the same decision |
| `Guards.AllowIffBeforeExpirySecond` | libs/shared/src/guards/auth.guard.ts:108-111 | comparing milliseconds with `exp * 1000` is comparing the current whole second `now / 1000` with `exp` |
| `Guards.ExpiredDenied` | libs/shared/src/guards/auth.guard.ts:106-111 | an expiry instant at or before the clock is denied |
| `Guards.LaterExpiryKeepsAllow` | libs/shared/src/guards/auth.guard.ts:106-111 | with a non-negative clock, a later `exp` never turns allow into deny |
| `Guards.EarlierClockKeepsAllow` | libs/shared/src/guards/auth.guard.ts:108-111 | for the same reply, an earlier clock never turns allow into deny |
| `Auth.AuthService.constructor` | apps/auth/src/auth.service.ts:23-46 | the service starts with an empty, valid table and the given hash, compare, sign and verify collaborators |
| `Auth.AuthService.FindByEmail` | apps/auth/src/auth.service.ts:59-64 | a row is found exactly when some stored row has that email, and it is that row, with its password hash |
| `Auth.AuthService.ValidateUser` | apps/auth/src/auth.service.ts:82-104 | null for an unknown email; null when `compare(password, stored hash)` fails; otherwise the stored row; equivalently, a row comes back iff some stored row has that email and a hash that accepts the password |
| `Auth.AuthService.LoginUser` | apps/auth/src/auth.service.ts:136-152 | Unauthorized("Bad credentials") iff `validateUser` yields null; otherwise `{ token }` signed over a stored row matching the credentials |
| `Auth.AuthService.VerifyJwt` | apps/auth/src/auth.service.ts:158-175 | a falsy token (`false` or `""`) is "Token is missing"; a token the verifier rejects is "Something went wrong with the verify token"; success iff the token is truthy and verifies, and then the reply is exactly `{ exp }` of its claims |
| `Auth.AuthService.RegisterUser` | apps/auth/src/auth.service.ts:112-134 | Conflict iff the email is taken, and then the table is unchanged; otherwise exactly one row is added under the email with the new id, the given names and `hash(password)`; other rows are unchanged; the invariant (unique emails and ids) is kept; the returned row has no password; if `HashSound` holds, that email and password then validate and log in |
| `Auth.StoredPasswordLogsIn` | apps/auth/src/auth.service.ts:96-151 | a row stored with `hash(p)` validates with `p` and logs in with the token signed over that row, given `HashSound` |
| `Auth.EmailsUnique` | apps/auth/src/entity/user.entity.ts:19-23 | in a valid table, two rows with the same email are the same row |
| `Auth.MissingTokenSkipsVerifier` | apps/auth/src/auth.service.ts:159-161 | a falsy token gives the same result whatever the verifier does, so the verifier is not consulted |
| `Auth.VerifyJwtKeepsOnlyExp` | apps/auth/src/auth.service.ts:163-169 | two accepted tokens whose claims share `exp` get the same reply, because only `exp` is passed on |
| `EndToEnd.VerifyTokenReply` | apps/auth/src/auth.service.ts:158-175 | the service replies with a record iff the token is truthy and verifies, and that record's `exp` is the token's claim |
| `EndToEnd.AcceptedTokenAllowedUntilExpiry` | libs/shared/src/guards/auth.guard.ts:73-111 | a verifying token after any one-word scheme is sent as it is, and is allowed exactly while the clock is before its non-zero expiry |
| `EndToEnd.RejectedTokenUnauthorized` | libs/shared/src/guards/auth.guard.ts:92-117 | a token the verifier rejects is sent and ends in the guard's UnauthorizedException |
| `EndToEnd.HeaderWithoutTokenUnauthorized` | libs/shared/src/guards/auth.guard.ts:66-117 | a non-empty header without a space sends `false` as the token, and the guard ends in UnauthorizedException rather than `false` |
| `EndToEnd.EmptyTokenUnauthorized` | libs/shared/src/guards/auth.guard.ts:73-117 | a scheme followed by a trailing or a double space sends `""`, which ends in UnauthorizedException |

## Left out

- Reply correlation, timeouts, redelivery and `channel.ack` are left out. They happen inside `@nestjs/microservices` and the broker client, which are not part of this model. There is no timeout outcome, because the guard's code has none of its own.
- The verify-token responder is left out. The auth controller has no `verify-token` handler. `EndToEnd.VerifyTokenReply` is an assumed responder, not a model of controller code.
- Controllers, modules, bootstrap, environment loading and the TypeORM repository wrappers are plumbing and are left out.
- `findUsers` is left out. It returns every row in an order the database decides.
- `hashPassword` and `doesPasswordMatch` are left out as operations. They are direct calls into bcrypt and appear as the `hash` and `compare` fields.
- `Auth.AuthService.RegisterUser`: bcrypt's random salt is not modelled. `hash` is one fixed function, so `hash(p)` is the same on every call.
- `Auth.AuthService.RegisterUser`: runs as one atomic step. Two concurrent registrations of one email can both get past `findByEmail` in the source. The database's unique constraint then rejects the second save. Neither that race nor database errors on `save` are modelled.
- `Guards.OnReply`: `exp` and `Date.now()` are integers, not floating-point numbers, so NaN, fractions and non-number claims are not covered. "Falsy" means absent or zero.
- `Guards.Request`: only a string header or no header is modelled. Non-string header values are left out. So is a reply that is not an object, which would make the `({ exp })` destructuring throw.
- `console.log` of `exp` is left out, and so is the choice between returning `false` directly and returning it through an observable. Both are the same verdict.
- `Auth.AuthService.ValidateUser`: requires the table invariant, so every stored row has a password hash. A row without a hash would make bcrypt throw; that case is not modelled.
