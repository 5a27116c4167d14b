/**
 * The guard and the auth service together: the guard's `verify-token`
 * command is answered by `verifyJwt`, and the guard decides on that answer.
 * The responder that connects the two is not among the auth controller's
 * handlers; it is taken to pass `payload.jwt` to `verifyJwt` and to reply
 * with its value, or with an error when it throws.
 */
module EndToEnd {
  import opened Wrappers
  import opened Messages
  import opened Guards
  import JsString
  import Auth

  /** The auth service's answer to a verify-token command. */
  function VerifyTokenReply(s: Auth.AuthService, cmd: Command): (reply: Reply)
    ensures reply.Replied? <==> Truthy(cmd.jwt) && s.verify(cmd.jwt.value).Some?
    ensures reply.Replied? ==> reply.body.exp == s.verify(cmd.jwt.value).value.exp
  {
    match s.VerifyJwt(cmd.jwt)
    case Success(body) => Replied(body)
    case Failure(_) => Failed
  }

  /** One authorization round trip, with the reply the service gives to the command the guard sent. */
  function Authorize(s: Auth.AuthService, ctxType: string, header: Option<string>, nowMs: int): Decision
  {
    var cmd := Request(ctxType, header);
    CanActivate(ctxType, header, if cmd.Some? then VerifyTokenReply(s, cmd.value) else Failed, nowMs)
  }

  /**
   * A token the verifier accepts, after any one-word scheme, is allowed
   * exactly while the clock is before its expiry: "Bearer t" and "Token t"
   * are treated alike.
   */
  lemma AcceptedTokenAllowedUntilExpiry(s: Auth.AuthService, scheme: string, token: string,
                                        exp: int, nowMs: int)
    requires ' ' !in scheme && ' ' !in token && token != ""
    requires s.verify(token).Some? && s.verify(token).value.exp == Some(exp) && exp != 0
    ensures Authorize(s, HTTP, Some(scheme + " " + token), nowMs) ==
      Decision(if nowMs < exp * 1000 then Allow else Deny, Some(Command(VERIFY_TOKEN, Str(token))))
  {
  }

  /** A token the verifier rejects ends in the UnauthorizedException, not in a denial. */
  lemma RejectedTokenUnauthorized(s: Auth.AuthService, scheme: string, token: string, nowMs: int)
    requires ' ' !in scheme && ' ' !in token && token != ""
    requires s.verify(token).None?
    ensures Authorize(s, HTTP, Some(scheme + " " + token), nowMs) ==
      Decision(Unauthorized(JWT_VALIDATION_FAILED), Some(Command(VERIFY_TOKEN, Str(token))))
  {
  }

  /**
   * A non-empty header without a space still sends the command, with
   * `false` as the token; the service answers "Token is missing" and the
   * guard throws.
   */
  lemma HeaderWithoutTokenUnauthorized(s: Auth.AuthService, header: string, nowMs: int)
    requires header != "" && ' ' !in header
    ensures Authorize(s, HTTP, Some(header), nowMs) ==
      Decision(Unauthorized(JWT_VALIDATION_FAILED), Some(Command(VERIFY_TOKEN, FalseLiteral)))
  {
  }

  /**
   * A scheme followed by a space and then nothing, or by a second space,
   * sends the empty token; it meets the same end as a missing one.
   */
  lemma EmptyTokenUnauthorized(s: Auth.AuthService, scheme: string, rest: string, nowMs: int)
    requires ' ' !in scheme
    requires rest == "" || rest[0] == ' '
    ensures Authorize(s, HTTP, Some(scheme + " " + rest), nowMs) ==
      Decision(Unauthorized(JWT_VALIDATION_FAILED), Some(Command(VERIFY_TOKEN, Str(""))))
  {
    TokenIgnoresScheme(scheme, rest);
    assert JsString.Split(rest, ' ')[0] == "";
  }
}
