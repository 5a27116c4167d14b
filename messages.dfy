/**
 * What travels between the edge guard and the auth service over the
 * message queue: the `verify-token` command and the `{ exp }` record
 * that answers it.
 */
module Messages {
  import opened Wrappers

  /** The message pattern `{ cmd: 'verify-token' }`. */
  const VERIFY_TOKEN: string := "verify-token"

  /**
   * The `jwt` field of the payload: the header's second space-separated
   * piece, or the literal `false` that `?? false` puts there when the
   * header has no space.
   */
  datatype Jwt = FalseLiteral | Str(value: string)

  /** JavaScript truthiness of the `jwt` field: `false` and "" are falsy. */
  predicate Truthy(jwt: Jwt)
  {
    jwt.Str? && jwt.value != ""
  }

  /** A command sent on the auth queue: its pattern and its `{ jwt }` payload. */
  datatype Command = Command(cmd: string, jwt: Jwt)

  /**
   * The claims a JWT verifier decodes from a token; `exp` and `iat` are in
   * seconds and either may be absent from the token.
   */
  datatype Claims = Claims(iat: Option<int>, exp: Option<int>)

  /** The `{ exp }` record verify-token answers with; an absent `exp` is `None`. */
  datatype ExpReply = ExpReply(exp: Option<int>)
}
