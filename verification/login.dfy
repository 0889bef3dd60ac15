/** `POST /auth/login`: check the credentials and issue an access token and a
    refresh token. */
module LoginRoute {
  import opened Wrappers
  import opened Text
  import opened Errors
  import opened Users
  import opened TokenTypes
  import opened UserController
  import opened RefreshTokenController
  import opened Jwt
  import opened Http

  datatype LoginRequest = LoginRequest(identifier: Option<string>, password: Option<string>)

  /** The outcome, and the refresh-token store afterwards. */
  datatype LoginResult = LoginResult(outcome: Outcome, tokens: seq<TokenRecord>)

  const BothRequired := "Both identifier and password are required."
  const IncorrectCredentials := "The information you entered is incorrect."
  const TokensFailed := "Failed to generate tokens."

  /** The errors the route itself raises. */
  predicate Refusal(e: Thrown) {
    || e == App(BadRequestError(BothRequired))
    || e == App(BadRequestError(UserNotFound))
    || e == App(BadRequestError(IncorrectCredentials))
    || e == App(UnauthorizedError(TokensFailed))
  }

  /** The pair of tokens a login issues to `u` at `now`. */
  function PairFor(u: User, env: Env, now: int): Body
    requires env.codec.signs(PayloadOf(u), env.cfg.secretKey, env.cfg.expiresIn)
    requires env.codec.signs(PayloadOf(u), env.cfg.refreshSecretKey, env.cfg.refreshExpiresIn)
  {
    TokenPair(
      Sign(PayloadOf(u), env.cfg.secretKey, env.cfg.expiresIn, now),
      Sign(PayloadOf(u), env.cfg.refreshSecretKey, env.cfg.refreshExpiresIn, now),
      env.cfg.expiresIn)
  }

  /** `login`. Both tokens are generated before either is checked, so a
      refresh token may be stored even when the access token fails and the
      request is refused. */
  function Login(req: LoginRequest, users: seq<User>, tokens: seq<TokenRecord>, env: Env, now: int): (r: LoginResult)
    ensures !Truthy(req.identifier) || !Truthy(req.password) ==>
      r == LoginResult(Forward(App(BadRequestError(BothRequired))), tokens)
    ensures Truthy(req.identifier) && Truthy(req.password) && env.userFault.Some? ==>
      r == LoginResult(Forward(env.userFault.value), tokens)
    ensures Truthy(req.identifier) && Truthy(req.password) && env.userFault.None? &&
            (forall u | u in users :: !Matches(u, Trim(req.identifier.value))) ==>
      r == LoginResult(Forward(App(BadRequestError(UserNotFound))), tokens)
    ensures r.outcome.Reply? ==>
      exists u | u in users && Matches(u, Trim(req.identifier.value)) ::
        && env.compare(req.password.value, u.password)
        && env.codec.signs(PayloadOf(u), env.cfg.secretKey, env.cfg.expiresIn)
        && env.codec.signs(PayloadOf(u), env.cfg.refreshSecretKey, env.cfg.refreshExpiresIn)
        && r.outcome == Reply(201, PairFor(u, env, now))
    ensures r.tokens != tokens ==>
      exists u | u in users && Matches(u, Trim(req.identifier.value)) ::
        env.compare(req.password.value, u.password)
    ensures r.outcome.Forward? ==> Refusal(r.outcome.error) || Some(r.outcome.error) == env.userFault
    ensures OnePerUser(tokens) ==> OnePerUser(r.tokens)
    ensures TokensOwned(tokens) ==> TokensOwned(r.tokens)
  {
    if !Truthy(req.identifier) || !Truthy(req.password) then
      LoginResult(Forward(App(BadRequestError(BothRequired))), tokens)
    else
      match FindUserByIdentifier(users, req.identifier.value, env.userFault)
      case Err(e) => LoginResult(Forward(e), tokens)
      case Ok(None) => LoginResult(Forward(App(BadRequestError(UserNotFound))), tokens)
      case Ok(Some(u)) =>
        if !env.compare(req.password.value, u.password) then
          LoginResult(Forward(App(BadRequestError(IncorrectCredentials))), tokens)
        else IssueTokens(u, tokens, env, now)
  }

  /** The token step of `login`, once the password has checked. Both tokens are
      generated before either is checked, so the refresh token's write happens
      even when the access token fails. */
  function IssueTokens(u: User, tokens: seq<TokenRecord>, env: Env, now: int): (r: LoginResult)
    ensures r.outcome.Reply? <==>
      && env.codec.signs(PayloadOf(u), env.cfg.secretKey, env.cfg.expiresIn)
      && env.codec.signs(PayloadOf(u), env.cfg.refreshSecretKey, env.cfg.refreshExpiresIn)
    ensures r.outcome.Reply? ==> r.outcome == Reply(201, PairFor(u, env, now))
    ensures r.outcome.Forward? ==> r.outcome.error == App(UnauthorizedError(TokensFailed))
    ensures r.tokens == GenerateRefreshToken(u, tokens, env.cfg, env.codec, env.tokenWrite, now).store
  {
    var access := GenerateAccessToken(u, env.cfg, env.codec, now);
    var issued := GenerateRefreshToken(u, tokens, env.cfg, env.codec, env.tokenWrite, now);
    if access.None? || issued.token.None? then
      LoginResult(Forward(App(UnauthorizedError(TokensFailed))), issued.store)
    else
      LoginResult(Reply(201, TokenPair(access.value, issued.token.value, env.cfg.expiresIn)), issued.store)
  }
}
