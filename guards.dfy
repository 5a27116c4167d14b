/**
 * The edge authorization guard (`AuthGuard.canActivate`). It is a pure
 * decision: the remote reply and the clock are inputs, and the decision
 * says whether the `verify-token` command was sent at all.
 */
module Guards {
  import opened Wrappers
  import opened Messages
  import JsString

  /** The only execution context type the guard lets through. */
  const HTTP: string := "http"

  /** The message of the UnauthorizedException raised when the reply stream fails. */
  const JWT_VALIDATION_FAILED: string := "Something went wrong with the jwt validation"

  /** What the reply stream of `send` delivers: the reply record, or an error notification. */
  datatype Reply = Replied(body: ExpReply) | Failed

  /**
   * The guard's outcome: `Allow` is `true`, `Deny` is `false` (returned
   * directly or through the observable), `Unauthorized` is the exception
   * thrown from `catchError`.
   */
  datatype Verdict = Allow | Deny | Unauthorized(message: string)

  /** The verdict together with the command sent to the auth service, if any. */
  datatype Decision = Decision(verdict: Verdict, sent: Option<Command>)

  /** Reference definition of the token: the text after the first space, up to the next space. */
  function TokenAfterScheme(header: string): Jwt
  {
    var i := JsString.IndexOf(header, ' ');
    if i < 0 then FalseLiteral
    else
      var rest := header[i + 1..];
      var j := JsString.IndexOf(rest, ' ');
      Str(if j < 0 then rest else rest[..j])
  }

  /** `authHeader.split(' ')[1] ?? false`: the second piece, or `false` when there is none. */
  function ExtractToken(header: string): (jwt: Jwt)
    ensures jwt == TokenAfterScheme(header)
    ensures jwt == FalseLiteral <==> ' ' !in header
    ensures jwt.Str? ==> ' ' !in jwt.value
  {
    var parts := JsString.Split(header, ' ');
    JsString.SplitHead(header, ' ');
    JsString.SplitPiecesFree(header, ' ');
    if |parts| > 1 then
      var i := JsString.IndexOf(header, ' ');
      JsString.SplitHead(header[i + 1..], ' ');
      Str(parts[1])
    else FalseLiteral
  }

  /** The scheme word before the first space is never looked at. */
  lemma TokenIgnoresScheme(scheme: string, rest: string)
    requires ' ' !in scheme
    ensures ExtractToken(scheme + " " + rest) == Str(JsString.Split(rest, ' ')[0])
  {
    JsString.SplitAfterPiece(scheme, rest, ' ');
  }

  /** A space-free token after any space-free scheme word is extracted as it is. */
  lemma BearerToken(scheme: string, token: string)
    requires ' ' !in scheme && ' ' !in token
    ensures ExtractToken(scheme + " " + token) == Str(token)
  {
  }

  /** A wrong scheme word is not noticed: "Token abc" yields "abc". */
  lemma WrongSchemeExample()
    ensures ExtractToken("Token abc") == Str("abc")
  {
  }

  /** A header without a space yields the literal `false`. */
  lemma NoSpaceExample()
    ensures ExtractToken("Bearer") == FalseLiteral
  {
  }

  /** A double space yields the empty token. */
  lemma DoubleSpaceExample()
    ensures ExtractToken("Bearer  abc") == Str("")
  {
  }

  /**
   * The part of canActivate before the command is sent: the context check,
   * the header check, and the command built from the extracted token.
   */
  function Request(ctxType: string, header: Option<string>): (cmd: Option<Command>)
    ensures cmd.None? <==> ctxType != HTTP || header.None? || header.value == ""
    ensures cmd.Some? ==> cmd.value == Command(VERIFY_TOKEN, TokenAfterScheme(header.value))
  {
    if ctxType != HTTP then None
    else if header.None? || header.value == "" then None
    else Some(Command(VERIFY_TOKEN, ExtractToken(header.value)))
  }

  /**
   * The `switchMap`/`catchError` mapping of the reply: an error becomes an
   * UnauthorizedException, a falsy `exp` a denial, and otherwise the token
   * is valid while the clock (milliseconds) is before `exp` (seconds).
   */
  function OnReply(reply: Reply, nowMs: int): (v: Verdict)
    ensures v.Unauthorized? <==> reply.Failed?
    ensures v.Unauthorized? ==> v.message == JWT_VALIDATION_FAILED
    ensures v == Allow <==>
      reply.Replied? && reply.body.exp.Some? && reply.body.exp.value != 0 &&
      nowMs < reply.body.exp.value * 1000
  {
    match reply
    case Failed => Unauthorized(JWT_VALIDATION_FAILED)
    case Replied(body) =>
      if body.exp.None? || body.exp.value == 0 then Deny
      else if nowMs < body.exp.value * 1000 then Allow
      else Deny
  }

  /** `canActivate` with the reply stream and `Date.now()` as inputs. */
  function CanActivate(ctxType: string, header: Option<string>, reply: Reply, nowMs: int): (d: Decision)
    ensures d.sent.None? <==> ctxType != HTTP || header.None? || header.value == ""
    ensures d.sent.None? ==> d.verdict == Deny
    ensures d.sent.Some? ==> d.sent.value == Command(VERIFY_TOKEN, TokenAfterScheme(header.value))
    ensures d.verdict == Allow <==>
      d.sent.Some? && reply.Replied? && reply.body.exp.Some? && reply.body.exp.value != 0 &&
      nowMs < reply.body.exp.value * 1000
    ensures d.verdict.Unauthorized? <==> d.sent.Some? && reply.Failed?
  {
    var cmd := Request(ctxType, header);
    Decision(if cmd.None? then Deny else OnReply(reply, nowMs), cmd)
  }

  /** When no command is sent, the reply cannot influence the decision. */
  lemma ReplyIgnoredWhenNotSent(ctxType: string, header: Option<string>, r1: Reply, r2: Reply, nowMs: int)
    requires CanActivate(ctxType, header, r1, nowMs).sent.None?
    ensures CanActivate(ctxType, header, r1, nowMs) == CanActivate(ctxType, header, r2, nowMs)
  {
  }

  /** Comparing in milliseconds is comparing the current whole second with `exp`. */
  lemma AllowIffBeforeExpirySecond(exp: int, nowMs: int)
    requires exp != 0
    ensures OnReply(Replied(ExpReply(Some(exp))), nowMs) == Allow <==> nowMs / 1000 < exp
  {
  }

  /** A token whose expiry instant is not after the clock is never accepted. */
  lemma ExpiredDenied(exp: int, nowMs: int)
    requires exp * 1000 <= nowMs
    ensures OnReply(Replied(ExpReply(Some(exp))), nowMs) == Deny
  {
  }

  /** At the same clock, a later `exp` never turns an allow into a deny. */
  lemma LaterExpiryKeepsAllow(e1: int, e2: int, nowMs: int)
    requires 0 <= nowMs && e1 <= e2
    requires OnReply(Replied(ExpReply(Some(e1))), nowMs) == Allow
    ensures OnReply(Replied(ExpReply(Some(e2))), nowMs) == Allow
  {
  }

  /** For the same reply, an earlier clock never turns an allow into a deny. */
  lemma EarlierClockKeepsAllow(reply: Reply, t1: int, t2: int)
    requires t1 <= t2
    requires OnReply(reply, t2) == Allow
    ensures OnReply(reply, t1) == Allow
  {
  }
}
