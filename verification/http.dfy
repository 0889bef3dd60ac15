/** What the three auth routes share: the request-body convention, the outcome
    of a handler, and the collaborators a request runs against. */
module Http {
  import opened Wrappers
  import opened Errors
  import opened TokenTypes
  import opened RefreshTokenController
  import opened Jwt

  /** A JSON body the handler sends itself. */
  datatype Body =
    | TokenPair(accessToken: Token, refreshToken: Token, expiresIn: nat)
    | AccessOnly(accessToken: Token, expiresIn: nat)
    | Message(message: string)

  /** A handler either answers, or hands an error to `next` for the global
      error handler to render. */
  datatype Outcome = Reply(code: int, body: Body) | Forward(error: Thrown)

  /** The message both the login and the refresh route give when the user a
      request names is not in the store. */
  const UserNotFound := "User not found."

  /** A body field passes `!field` checks: present and not the empty string. */
  predicate Truthy(v: Option<string>) {
    v.Some? && v.value != ""
  }

  /** The collaborators a request runs against: configuration, the signing
      library, bcrypt's hash and compare, and the outcome of each database
      round-trip (`userFault` for the user collection, `tokenWrite` and
      `tokenReadFails` for the refresh-token collection). */
  datatype Env = Env(
    cfg: Config,
    codec: Codec,
    hash: string -> Option<string>,
    compare: (string, string) -> bool,
    userFault: Option<Thrown>,
    tokenWrite: WriteFault,
    tokenReadFails: bool)

  /** The database answers every round-trip and a refresh token's record is
      saved. */
  predicate Healthy(env: Env) {
    env.userFault.None? && env.tokenWrite == NoWriteFault && !env.tokenReadFails
  }
}
