/** `POST /auth/refresh-token`: exchange a stored, unexpired refresh token for
    a new access token. The refresh-token store is only read. */
module RefreshRoute {
  import opened Wrappers
  import opened Errors
  import opened Users
  import opened TokenTypes
  import opened UserController
  import opened RefreshTokenController
  import opened Jwt
  import opened Http

  const RefreshRequired := "Refresh token is required."
  const InvalidRefresh := "Invalid or expired refresh token."
  const AccessFailed := "Failed to generate access token."

  /** The errors the route raises. */
  predicate Refusal(e: Thrown) {
    || e == App(BadRequestError(RefreshRequired))
    || e == App(UnauthorizedError(InvalidRefresh))
    || e == App(BadRequestError(UserNotFound))
    || e == App(UnauthorizedError(AccessFailed))
  }

  /** `refreshAccessToken`. `req` is the body's `refresh_token`; `None` stands
      for an absent or empty one. The user is looked up by the token's `id`
      claim, and the new access token carries that user's current username
      and role. A failed user lookup reads as "not found". */
  function RefreshAccessToken(req: Option<Token>, users: seq<User>, tokens: seq<TokenRecord>, env: Env, now: int): (r: Outcome)
    ensures req.None? ==> r == Forward(App(BadRequestError(RefreshRequired)))
    ensures req.Some? && VerifyRefreshToken(req.value, tokens, env.cfg, env.codec, env.tokenReadFails, now).None? ==>
      r == Forward(App(UnauthorizedError(InvalidRefresh)))
    ensures req.Some? && VerifyRefreshToken(req.value, tokens, env.cfg, env.codec, env.tokenReadFails, now).Some? &&
            (env.userFault.Some? || forall u | u in users :: u.id != req.value.claims.id) ==>
      r == Forward(App(BadRequestError(UserNotFound)))
    ensures r.Reply? ==>
      && req.Some?
      && VerifyRefreshToken(req.value, tokens, env.cfg, env.codec, env.tokenReadFails, now).Some?
      && env.userFault.None?
      && exists u | u in users && u.id == req.value.claims.id ::
           env.codec.signs(PayloadOf(u), env.cfg.secretKey, env.cfg.expiresIn)
    ensures WellFormed(users) && req.Some? &&
            VerifyRefreshToken(req.value, tokens, env.cfg, env.codec, env.tokenReadFails, now).Some? &&
            env.userFault.None? &&
            (exists u | u in users && u.id == req.value.claims.id ::
               env.codec.signs(PayloadOf(u), env.cfg.secretKey, env.cfg.expiresIn)) ==>
      r.Reply?
    ensures r.Reply? ==>
      exists u | u in users && u.id == req.value.claims.id ::
        r == Reply(201, AccessOnly(Sign(PayloadOf(u), env.cfg.secretKey, env.cfg.expiresIn, now), env.cfg.expiresIn))
    ensures r.Forward? && req.Some? &&
            VerifyRefreshToken(req.value, tokens, env.cfg, env.codec, env.tokenReadFails, now).Some? &&
            env.userFault.None? && (exists u | u in users :: u.id == req.value.claims.id) ==>
      r.error == App(UnauthorizedError(AccessFailed))
    ensures r.Forward? ==> Refusal(r.error)
  {
    match req
    case None => Forward(App(BadRequestError(RefreshRequired)))
    case Some(t) =>
      match VerifyRefreshToken(t, tokens, env.cfg, env.codec, env.tokenReadFails, now)
      case None => Forward(App(UnauthorizedError(InvalidRefresh)))
      case Some(decoded) =>
        match FindUserById(users, decoded.claims.id, env.userFault)
        case None => Forward(App(BadRequestError(UserNotFound)))
        case Some(u) =>
          match GenerateAccessToken(u, env.cfg, env.codec, now)
          case None => Forward(App(UnauthorizedError(AccessFailed)))
          case Some(access) => Reply(201, AccessOnly(access, env.cfg.expiresIn))
  }
}
