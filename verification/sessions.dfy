/** Properties of the auth routes taken together: registration, login,
    refresh and account deletion over the same stores. */
module Sessions {
  import opened Wrappers
  import opened Text
  import opened Errors
  import opened ErrorHandler
  import opened Users
  import opened TokenTypes
  import opened UserController
  import opened RefreshTokenController
  import opened Jwt
  import opened Http
  import opened LoginRoute
  import opened RefreshRoute
  import opened RegisterRoute

  /** The signing library signs every payload. */
  ghost predicate SignsAll(codec: Codec) {
    forall c: Claims, k: string, n: nat :: codec.signs(c, k, n)
  }

  /** bcrypt's compare accepts a password against its own hash. */
  ghost predicate CompareAgrees(env: Env) {
    forall p: string, h: string :: env.hash(p) == Some(h) ==> env.compare(p, h)
  }

  /** Once the lookup has found `u` and the password checks, a login is its
      token step. */
  lemma LoginIsIssue(req: LoginRequest, users: seq<User>, tokens: seq<TokenRecord>, env: Env, now: int, u: User)
    requires Truthy(req.identifier) && Truthy(req.password)
    requires FindUserByIdentifier(users, req.identifier.value, env.userFault) == Ok(Some(u))
    requires env.compare(req.password.value, u.password)
    ensures Login(req, users, tokens, env, now) == IssueTokens(u, tokens, env, now)
  {
  }

  /** In a well-formed store, login succeeds for a user matching the
      identifier exactly when the password checks and both tokens sign. */
  lemma LoginSucceedsIff(req: LoginRequest, users: seq<User>, tokens: seq<TokenRecord>, env: Env, now: int, u: User)
    requires WellFormed(users) && env.userFault.None?
    requires Truthy(req.identifier) && Truthy(req.password)
    requires u in users && Matches(u, Trim(req.identifier.value))
    ensures Login(req, users, tokens, env, now).outcome.Reply? <==>
      && env.compare(req.password.value, u.password)
      && env.codec.signs(PayloadOf(u), env.cfg.secretKey, env.cfg.expiresIn)
      && env.codec.signs(PayloadOf(u), env.cfg.refreshSecretKey, env.cfg.refreshExpiresIn)
  {
    assert FindUserByIdentifier(users, req.identifier.value, None) == Ok(Some(u));
  }

  /** A wrong password is refused and leaves the refresh-token store as it was. */
  lemma WrongPasswordChangesNothing(req: LoginRequest, users: seq<User>, tokens: seq<TokenRecord>, env: Env, now: int, u: User)
    requires WellFormed(users) && env.userFault.None?
    requires Truthy(req.identifier) && Truthy(req.password)
    requires u in users && Matches(u, Trim(req.identifier.value))
    requires !env.compare(req.password.value, u.password)
    ensures Login(req, users, tokens, env, now) == LoginResult(Forward(App(BadRequestError(IncorrectCredentials))), tokens)
  {
    assert FindUserByIdentifier(users, req.identifier.value, None) == Ok(Some(u));
  }

  /** After a successful registration the new user can log in, by username and
      by email, with the password they registered. */
  lemma RegisteredUserCanLogin(req: RegisterRequest, users: seq<User>, tokens: seq<TokenRecord>, env: Env, newId: UserId, now: int)
    requires WellFormed(users) && forall i | 0 <= i < |users| :: users[i].id != newId
    requires Healthy(env) && SignsAll(env.codec) && CompareAgrees(env)
    requires Register(req, users, env, newId).outcome.Reply?
    ensures var after := Register(req, users, env, newId).users;
            && Login(LoginRequest(req.username, req.password), after, tokens, env, now).outcome.Reply?
            && Login(LoginRequest(req.email, req.password), after, tokens, env, now).outcome.Reply?
  {
    var input := InputOf(req);
    var after := Register(req, users, env, newId).users;
    assert after == CreateUser(users, input, env.hash, None, newId).value;
    CreateUserPreservesWellFormed(users, input, env.hash, newId);
    var u := after[|users|];
    assert u.password == env.hash(req.password.value).value;
    LoginSucceedsIff(LoginRequest(req.username, req.password), after, tokens, env, now, u);
    LoginSucceedsIff(LoginRequest(req.email, req.password), after, tokens, env, now, u);
  }

  /** A successful login has issued both tokens to the user the identifier
      names, and its store is the one the refresh token's generation left. */
  lemma LoginReplyIssued(req: LoginRequest, users: seq<User>, tokens: seq<TokenRecord>, env: Env, now: int)
    requires env.userFault.None?
    requires Login(req, users, tokens, env, now).outcome.Reply?
    ensures Truthy(req.identifier)
    ensures var u := FindUserByIdentifier(users, req.identifier.value, None).value.value;
            var r := Login(req, users, tokens, env, now);
            && u in users
            && env.compare(req.password.value, u.password)
            && r == IssueTokens(u, tokens, env, now)
            && env.codec.signs(PayloadOf(u), env.cfg.secretKey, env.cfg.expiresIn)
            && env.codec.signs(PayloadOf(u), env.cfg.refreshSecretKey, env.cfg.refreshExpiresIn)
            && r.tokens == GenerateRefreshToken(u, tokens, env.cfg, env.codec, env.tokenWrite, now).store
            && r.outcome.body.refreshToken == GenerateRefreshToken(u, tokens, env.cfg, env.codec, env.tokenWrite, now).token.value
  {
    var u := FindUserByIdentifier(users, req.identifier.value, None).value.value;
    assert Login(req, users, tokens, env, now) == IssueTokens(u, tokens, env, now);
  }

  /** The refresh token of a login whose record was saved buys a new access
      token, for the same user, until its `exp` second. */
  lemma LoginThenRefresh(req: LoginRequest, users: seq<User>, tokens: seq<TokenRecord>, env: Env, now: int, later: int)
    requires WellFormed(users) && TokensOwned(tokens) && Healthy(env) && AcceptsFresh(env.codec)
    requires Login(req, users, tokens, env, now).outcome.Reply?
    requires later / 1000 < now / 1000 + env.cfg.refreshExpiresIn
    ensures var r := Login(req, users, tokens, env, now);
            var refresh := r.outcome.body.refreshToken;
            var access := RefreshAccessToken(Some(refresh), users, r.tokens, env, later);
            && access.Reply?
            && access.body.accessToken.claims == refresh.claims
  {
    LoginReplyIssued(req, users, tokens, env, now);
    var u := FindUserByIdentifier(users, req.identifier.value, None).value.value;
    RefreshWithIssuedToken(u, users, tokens, env, now, later);
  }

  /** A refresh token just issued to a stored user, and saved, buys an access
      token with the same claims until its `exp` second. */
  lemma RefreshWithIssuedToken(u: User, users: seq<User>, tokens: seq<TokenRecord>, env: Env, now: int, later: int)
    requires WellFormed(users) && u in users
    requires TokensOwned(tokens) && Healthy(env) && AcceptsFresh(env.codec)
    requires env.codec.signs(PayloadOf(u), env.cfg.secretKey, env.cfg.expiresIn)
    requires env.codec.signs(PayloadOf(u), env.cfg.refreshSecretKey, env.cfg.refreshExpiresIn)
    requires later / 1000 < now / 1000 + env.cfg.refreshExpiresIn
    ensures var r := GenerateRefreshToken(u, tokens, env.cfg, env.codec, NoWriteFault, now);
            var access := RefreshAccessToken(Some(r.token.value), users, r.store, env, later);
            && access.Reply?
            && access.body.accessToken.claims == r.token.value.claims
  {
    RefreshTokenRoundTrip(u, tokens, env.cfg, env.codec, now, later);
    FindUserByIdFindsTheHolder(users, u);
  }

  /** A later login in another second replaces the user's refresh token: the
      earlier one no longer refreshes, whatever the first login's write did. */
  lemma NewerLoginRevokesOlder(req: LoginRequest, users: seq<User>, tokens: seq<TokenRecord>, first: Env, env: Env, now1: int, now2: int, later: int)
    requires TokensOwned(tokens) && Healthy(env)
    requires first.cfg == env.cfg && first.codec == env.codec && first.compare == env.compare && first.userFault.None?
    requires now1 / 1000 != now2 / 1000
    requires Login(req, users, tokens, first, now1).outcome.Reply?
    requires Login(req, users, Login(req, users, tokens, first, now1).tokens, env, now2).outcome.Reply?
    ensures var r1 := Login(req, users, tokens, first, now1);
            var r2 := Login(req, users, r1.tokens, env, now2);
            RefreshAccessToken(Some(r1.outcome.body.refreshToken), users, r2.tokens, env, later)
              == Forward(App(UnauthorizedError(InvalidRefresh)))
  {
    var r1 := Login(req, users, tokens, first, now1);
    LoginReplyIssued(req, users, tokens, first, now1);
    LoginReplyIssued(req, users, r1.tokens, env, now2);
    var u := FindUserByIdentifier(users, req.identifier.value, None).value.value;
    var t1 := r1.outcome.body.refreshToken;
    ReissueRevokes(u, r1.tokens, env.cfg, env.codec, now2, t1, env.tokenReadFails, later);
  }

  /** Two logins in the same second issue the same refresh token, so the
      earlier token stays valid. */
  lemma SameSecondLoginsShareToken(req: LoginRequest, users: seq<User>, tokens: seq<TokenRecord>, env: Env, now1: int, now2: int)
    requires env.userFault.None?
    requires now1 / 1000 == now2 / 1000
    requires Login(req, users, tokens, env, now1).outcome.Reply?
    ensures var r1 := Login(req, users, tokens, env, now1);
            var r2 := Login(req, users, r1.tokens, env, now2);
            r2.outcome == r1.outcome
  {
    LoginReplyIssued(req, users, tokens, env, now1);
    var r1 := Login(req, users, tokens, env, now1);
    var u := FindUserByIdentifier(users, req.identifier.value, None).value.value;
    LoginIsIssue(req, users, r1.tokens, env, now2, u);
    IssueSameSecond(u, tokens, r1.tokens, env, now1, now2);
  }

  lemma IssueSameSecond(u: User, s1: seq<TokenRecord>, s2: seq<TokenRecord>, env: Env, now1: int, now2: int)
    requires now1 / 1000 == now2 / 1000
    ensures IssueTokens(u, s1, env, now1).outcome == IssueTokens(u, s2, env, now2).outcome
  {
    assert GenerateRefreshToken(u, s1, env.cfg, env.codec, env.tokenWrite, now1).token
        == GenerateRefreshToken(u, s2, env.cfg, env.codec, env.tokenWrite, now2).token;
  }

  /** A deleted user cannot refresh: a token naming them is refused even while
      its record is still stored. */
  lemma DeletedUserCannotRefresh(users: seq<User>, identifier: string, t: Token, tokens: seq<TokenRecord>, env: Env, now: int)
    requires WellFormed(users)
    requires DeleteUser(users, identifier, None).Ok?
    requires t.claims.id == users[FirstMatch(users, Trim(identifier))].id
    ensures RefreshAccessToken(Some(t), DeleteUser(users, identifier, None).value, tokens, env, now).Forward?
  {
    var after := DeleteUser(users, identifier, None).value;
    var i := FirstMatch(users, Trim(identifier));
    forall v | v in after ensures v.id != t.claims.id {
      DeleteUserRemovesOnlyTheMatch(users, identifier);
      var j :| 0 <= j < |users| && users[j] == v;
      if j != i {
        assert users[j].id != users[i].id;
      }
    }
  }

  /** Without database faults, every refusal of a login is a client error: a
      400 or 401 rendered with status "fail". */
  lemma LoginRefusalsAreClientErrors(req: LoginRequest, users: seq<User>, tokens: seq<TokenRecord>, env: Env, now: int)
    requires env.userFault.None?
    requires Login(req, users, tokens, env, now).outcome.Forward?
    ensures var e := GlobalErrorHandler(Login(req, users, tokens, env, now).outcome.error);
            (e.code == 400 || e.code == 401) && e.status == "fail"
  {
    var e := Login(req, users, tokens, env, now).outcome.error;
    assert LoginRoute.Refusal(e);
  }

  /** Every refusal of a refresh is a client error: a 400 or 401 rendered with
      status "fail". */
  lemma RefreshRefusalsAreClientErrors(req: Option<Token>, users: seq<User>, tokens: seq<TokenRecord>, env: Env, now: int)
    requires RefreshAccessToken(req, users, tokens, env, now).Forward?
    ensures var e := GlobalErrorHandler(RefreshAccessToken(req, users, tokens, env, now).error);
            (e.code == 400 || e.code == 401) && e.status == "fail"
  {
  }

  /** A registration the schema rejects reaches the client as a 500 with
      status "error": the validator's error carries no status code. */
  lemma RejectedRegistrationIsServerError(req: RegisterRequest, users: seq<User>, env: Env, newId: UserId)
    requires Complete(req) && env.userFault.None? && !Duplicate(users, InputOf(req))
    requires !Accepted(InputOf(req), env.hash(req.password.value))
    ensures var e := GlobalErrorHandler(Register(req, users, env, newId).outcome.error);
            e.code == 500 && e.status == "error"
  {
  }

  /** Registration never grants the admin role. */
  lemma RegisteredUsersAreDefault(req: RegisterRequest, users: seq<User>, env: Env, newId: UserId)
    requires Register(req, users, env, newId).outcome.Reply?
    ensures Register(req, users, env, newId).users[|users|].role == Default
  {
  }

  /** A login refused because the access token did not sign has still stored a
      new refresh token for the user, replacing their previous one. */
  lemma RefusedLoginStillStoresRefreshToken(req: LoginRequest, users: seq<User>, tokens: seq<TokenRecord>, env: Env, now: int, u: User)
    requires WellFormed(users) && Healthy(env)
    requires Truthy(req.identifier) && Truthy(req.password)
    requires u in users && Matches(u, Trim(req.identifier.value))
    requires env.compare(req.password.value, u.password)
    requires !env.codec.signs(PayloadOf(u), env.cfg.secretKey, env.cfg.expiresIn)
    requires env.codec.signs(PayloadOf(u), env.cfg.refreshSecretKey, env.cfg.refreshExpiresIn)
    ensures var r := Login(req, users, tokens, env, now);
            && r.outcome == Forward(App(UnauthorizedError(TokensFailed)))
            && RecordsOf(r.tokens, u.id) ==
                 [TokenRecord(u.id, Sign(PayloadOf(u), env.cfg.refreshSecretKey, env.cfg.refreshExpiresIn, now),
                              now + env.cfg.refreshExpiresIn * 1000)]
  {
    assert FindUserByIdentifier(users, req.identifier.value, None) == Ok(Some(u));
    RefusedLoginStores(req, users, tokens, env, now, u);
  }

  /** The same, once the lookup is known to have found `u`. */
  lemma RefusedLoginStores(req: LoginRequest, users: seq<User>, tokens: seq<TokenRecord>, env: Env, now: int, u: User)
    requires Healthy(env) && Truthy(req.identifier) && Truthy(req.password)
    requires FindUserByIdentifier(users, req.identifier.value, None) == Ok(Some(u))
    requires env.compare(req.password.value, u.password)
    requires !env.codec.signs(PayloadOf(u), env.cfg.secretKey, env.cfg.expiresIn)
    requires env.codec.signs(PayloadOf(u), env.cfg.refreshSecretKey, env.cfg.refreshExpiresIn)
    ensures var r := Login(req, users, tokens, env, now);
            && r.outcome == Forward(App(UnauthorizedError(TokensFailed)))
            && RecordsOf(r.tokens, u.id) ==
                 [TokenRecord(u.id, Sign(PayloadOf(u), env.cfg.refreshSecretKey, env.cfg.refreshExpiresIn, now),
                              now + env.cfg.refreshExpiresIn * 1000)]
  {
    LoginIsIssue(req, users, tokens, env, now, u);
    IssueWithoutAccessStores(u, tokens, env, now);
  }

  lemma IssueWithoutAccessStores(u: User, tokens: seq<TokenRecord>, env: Env, now: int)
    requires env.tokenWrite == NoWriteFault
    requires !env.codec.signs(PayloadOf(u), env.cfg.secretKey, env.cfg.expiresIn)
    requires env.codec.signs(PayloadOf(u), env.cfg.refreshSecretKey, env.cfg.refreshExpiresIn)
    ensures var r := IssueTokens(u, tokens, env, now);
            && r.outcome == Forward(App(UnauthorizedError(TokensFailed)))
            && RecordsOf(r.tokens, u.id) ==
                 [TokenRecord(u.id, Sign(PayloadOf(u), env.cfg.refreshSecretKey, env.cfg.refreshExpiresIn, now),
                              now + env.cfg.refreshExpiresIn * 1000)]
  {
    var issued := GenerateRefreshToken(u, tokens, env.cfg, env.codec, NoWriteFault, now);
    assert issued.token == Some(Sign(PayloadOf(u), env.cfg.refreshSecretKey, env.cfg.refreshExpiresIn, now));
  }

  /** The schema's length rule sees the hash, so the plaintext's length plays
      no part in registration: any non-empty password, however short, fares
      as another with the same hash outcome. */
  lemma PasswordLengthIsNotChecked(req: RegisterRequest, users: seq<User>, env: Env, newId: UserId, p: string)
    requires Complete(req) && p != ""
    requires env.hash(p) == env.hash(req.password.value)
    ensures Register(req.(password := Some(p)), users, env, newId).outcome.Reply? <==>
            Register(req, users, env, newId).outcome.Reply?
  {
  }
}
