/** Issuing and verifying access and refresh tokens. The signing library is a
    collaborator: `Codec.signs` says whether signing succeeds and
    `Codec.accepts` whether verification does; tokens are symbolic. */
module Jwt {
  import opened Wrappers
  import opened Users
  import opened TokenTypes
  import opened RefreshTokenController

  /** The configured secrets and lifetimes (seconds) of the two token kinds. */
  datatype Config = Config(
    secretKey: string,
    expiresIn: nat,
    refreshSecretKey: string,
    refreshExpiresIn: nat)

  /** `signs(claims, secret, expiresIn)`: `jwt.sign` returns instead of throwing.
      `accepts(token, secret, now)`: `jwt.verify` returns instead of throwing,
      at the instant `now` in milliseconds. */
  datatype Codec = Codec(
    signs: (Claims, string, nat) -> bool,
    accepts: (Token, string, int) -> bool)

  /** Verification never accepts a token under a secret it was not signed with. */
  ghost predicate SecretBound(codec: Codec) {
    forall t: Token, k: string, now: int :: codec.accepts(t, k, now) ==> t.secret == k
  }

  /** Verification accepts every token signed with the secret that has not
      reached its `exp` second. */
  ghost predicate AcceptsFresh(codec: Codec) {
    forall t: Token, k: string, now: int :: t.secret == k && now / 1000 < t.exp ==> codec.accepts(t, k, now)
  }

  function PayloadOf(u: User): Claims {
    Claims(u.id, u.username, u.role)
  }

  /** `jwt.sign(claims, secret, {expiresIn})` at `now` (ms): `iat` is the current
      second and `exp` lies `expiresIn` seconds later. */
  function Sign(claims: Claims, secret: string, expiresIn: nat, now: int): (t: Token)
    ensures t.claims == claims && t.secret == secret
    ensures t.iat * 1000 <= now < t.iat * 1000 + 1000
    ensures t.exp - t.iat == expiresIn
  {
    Token(claims, secret, now / 1000, now / 1000 + expiresIn)
  }

  function DecodedOf(t: Token): Decoded {
    Decoded(t.claims, t.iat, t.exp)
  }

  /** `generateAccessToken`: the user's payload signed with the access secret
      and lifetime; `null` when signing throws. */
  function GenerateAccessToken(u: User, cfg: Config, codec: Codec, now: int): (r: Option<Token>)
    ensures r.Some? <==> codec.signs(PayloadOf(u), cfg.secretKey, cfg.expiresIn)
    ensures r.Some? ==>
      && r.value.claims == Claims(u.id, u.username, u.role)
      && r.value.secret == cfg.secretKey
      && r.value.iat == now / 1000
      && r.value.exp == r.value.iat + cfg.expiresIn
  {
    var claims := PayloadOf(u);
    if codec.signs(claims, cfg.secretKey, cfg.expiresIn) then
      Some(Sign(claims, cfg.secretKey, cfg.expiresIn, now))
    else None
  }

  datatype Issued = Issued(token: Option<Token>, store: seq<TokenRecord>)

  /** `generateRefreshToken`: sign with the refresh secret and lifetime, store
      `(user.id, token, now + lifetime * 1000)` through `createRefreshToken`, and
      return the token whatever that call reported. */
  function GenerateRefreshToken(u: User, s: seq<TokenRecord>, cfg: Config, codec: Codec, fault: WriteFault, now: int): (r: Issued)
    ensures r.token.Some? <==> codec.signs(PayloadOf(u), cfg.refreshSecretKey, cfg.refreshExpiresIn)
    ensures r.token.Some? ==>
      && r.token.value.claims == Claims(u.id, u.username, u.role)
      && r.token.value.secret == cfg.refreshSecretKey
      && r.token.value.iat == now / 1000
      && r.token.value.exp == r.token.value.iat + cfg.refreshExpiresIn
    ensures r.token.None? ==> r.store == s
    ensures r.token.Some? && fault == NoWriteFault ==>
      RecordsOf(r.store, u.id) == [TokenRecord(u.id, r.token.value, now + cfg.refreshExpiresIn * 1000)]
    ensures r.token.Some? && fault == FailsAfterDelete ==> RecordsOf(r.store, u.id) == []
    ensures fault == FailsBeforeDelete ==> r.store == s
    ensures forall uid | uid != u.id :: RecordsOf(r.store, uid) == RecordsOf(s, uid)
    ensures OnePerUser(s) ==> OnePerUser(r.store)
    ensures TokensOwned(s) ==> TokensOwned(r.store)
  {
    var claims := PayloadOf(u);
    if codec.signs(claims, cfg.refreshSecretKey, cfg.refreshExpiresIn) then
      var token := Sign(claims, cfg.refreshSecretKey, cfg.refreshExpiresIn, now);
      var record := TokenRecord(u.id, token, now + cfg.refreshExpiresIn * 1000);
      CreateKeepsTokensOwned(s, record, fault);
      Issued(Some(token), CreateRefreshToken(s, record, fault).store)
    else Issued(None, s)
  }

  /** `verifyAccessToken`: the decoded payload when the access secret verifies
      the token, else `null`. */
  function VerifyAccessToken(t: Token, cfg: Config, codec: Codec, now: int): (r: Option<Decoded>)
    ensures r.Some? <==> codec.accepts(t, cfg.secretKey, now)
    ensures r.Some? ==> r.value.claims == t.claims && r.value.iat == t.iat && r.value.exp == t.exp
  {
    if codec.accepts(t, cfg.secretKey, now) then Some(DecodedOf(t)) else None
  }

  /** The earliest stored record holding `t` exists and has not expired at `now`. */
  ghost predicate FirstRecordLive(s: seq<TokenRecord>, t: Token, now: int) {
    exists i | 0 <= i < |s| :: s[i].token == t && now <= s[i].expiresAt && forall j | 0 <= j < i :: s[j].token != t
  }

  /** `verifyRefreshToken`: the refresh secret must verify the token, the store
      must hold a record with that token, and that record must not have expired
      (`expiresAt < now` rejects; equality passes). The payload is returned as
      decoded, without comparing its id with the record's owner. */
  function VerifyRefreshToken(t: Token, s: seq<TokenRecord>, cfg: Config, codec: Codec, lookupFails: bool, now: int): (r: Option<Decoded>)
    ensures !codec.accepts(t, cfg.refreshSecretKey, now) ==> r.None?
    ensures lookupFails || (forall x | x in s :: x.token != t) ==> r.None?
    ensures r.Some? <==>
      codec.accepts(t, cfg.refreshSecretKey, now) && !lookupFails && FirstRecordLive(s, t, now)
    ensures r.Some? ==> r.value.claims == t.claims && r.value.iat == t.iat && r.value.exp == t.exp
  {
    if !codec.accepts(t, cfg.refreshSecretKey, now) then None
    else
      match FindRefreshToken(s, t, lookupFails)
      case None => None
      case Some(record) =>
        if record.expiresAt < now then None else Some(DecodedOf(t))
  }

  /** Round trip: a freshly issued access token verifies at once, to the
      issuing user's id, username and role. */
  lemma AccessTokenRoundTrip(u: User, cfg: Config, codec: Codec, now: int)
    requires AcceptsFresh(codec) && cfg.expiresIn > 0
    requires codec.signs(PayloadOf(u), cfg.secretKey, cfg.expiresIn)
    ensures var t := GenerateAccessToken(u, cfg, codec, now).value;
            VerifyAccessToken(t, cfg, codec, now) == Some(Decoded(Claims(u.id, u.username, u.role), now / 1000, now / 1000 + cfg.expiresIn))
  {
  }

  /** With distinct secrets, an access token is never accepted as a refresh token. */
  lemma AccessTokenIsNotARefreshToken(u: User, s: seq<TokenRecord>, cfg: Config, codec: Codec, lookupFails: bool, issued: int, now: int)
    requires SecretBound(codec) && cfg.secretKey != cfg.refreshSecretKey
    requires codec.signs(PayloadOf(u), cfg.secretKey, cfg.expiresIn)
    ensures VerifyRefreshToken(GenerateAccessToken(u, cfg, codec, issued).value, s, cfg, codec, lookupFails, now).None?
  {
  }

  /** With distinct secrets, a refresh token is never accepted as an access token. */
  lemma RefreshTokenIsNotAnAccessToken(u: User, s: seq<TokenRecord>, cfg: Config, codec: Codec, fault: WriteFault, issued: int, now: int)
    requires SecretBound(codec) && cfg.secretKey != cfg.refreshSecretKey
    requires codec.signs(PayloadOf(u), cfg.refreshSecretKey, cfg.refreshExpiresIn)
    ensures VerifyAccessToken(GenerateRefreshToken(u, s, cfg, codec, fault, issued).token.value, cfg, codec, now).None?
  {
  }

  /** While a refresh token's own `exp` has not passed, its store record has not
      expired either: `later / 1000 < now / 1000 + ttl` implies
      `later <= now + ttl * 1000`. */
  lemma StoreExpiryNotBeforeTokenExpiry(now: int, ttl: nat, later: int)
    requires later / 1000 < now / 1000 + ttl
    ensures later <= now + ttl * 1000
  {
    assert later < (later / 1000 + 1) * 1000;
    assert now / 1000 * 1000 <= now;
  }

  /** Round trip: a refresh token whose record was saved verifies, to its own
      payload, at any instant before its `exp`. */
  lemma RefreshTokenRoundTrip(u: User, s: seq<TokenRecord>, cfg: Config, codec: Codec, now: int, later: int)
    requires AcceptsFresh(codec) && TokensOwned(s)
    requires codec.signs(PayloadOf(u), cfg.refreshSecretKey, cfg.refreshExpiresIn)
    requires later / 1000 < now / 1000 + cfg.refreshExpiresIn
    ensures var r := GenerateRefreshToken(u, s, cfg, codec, NoWriteFault, now);
            VerifyRefreshToken(r.token.value, r.store, cfg, codec, false, later) == Some(DecodedOf(r.token.value))
  {
    var r := GenerateRefreshToken(u, s, cfg, codec, NoWriteFault, now);
    var t := r.token.value;
    var record := TokenRecord(u.id, t, now + cfg.refreshExpiresIn * 1000);
    FindOwnRecord(r.store, record);
    StoreExpiryNotBeforeTokenExpiry(now, cfg.refreshExpiresIn, later);
  }

  /** Issuing a user a refresh token in a new second revokes every earlier
      refresh token of theirs, once the record is saved. */
  lemma ReissueRevokes(u: User, s: seq<TokenRecord>, cfg: Config, codec: Codec, now: int, earlier: Token, lookupFails: bool, later: int)
    requires TokensOwned(s)
    requires codec.signs(PayloadOf(u), cfg.refreshSecretKey, cfg.refreshExpiresIn)
    requires earlier.claims.id == u.id && earlier.iat != now / 1000
    ensures var r := GenerateRefreshToken(u, s, cfg, codec, NoWriteFault, now);
            VerifyRefreshToken(earlier, r.store, cfg, codec, lookupFails, later).None?
  {
    var r := GenerateRefreshToken(u, s, cfg, codec, NoWriteFault, now);
    var d := TokenRecord(u.id, r.token.value, now + cfg.refreshExpiresIn * 1000);
    OnlyCurrentTokenFound(r.store, d, earlier, lookupFails);
  }
}
