/** Token payloads, symbolic signed tokens, and the stored refresh-token record. */
module TokenTypes {
  import opened Users

  /** The claims both token kinds carry: `{id, username, role}`. */
  datatype Claims = Claims(id: UserId, username: string, role: Role)

  /** A signed token, kept symbolically: its claims, the secret it was signed
      with, and its issued-at and expiry times in whole seconds. Signing is
      deterministic, so equal fields mean the same token string. */
  datatype Token = Token(claims: Claims, secret: string, iat: int, exp: int)

  /** A verified token's decoded payload: the claims plus `iat` and `exp`. */
  datatype Decoded = Decoded(claims: Claims, iat: int, exp: int)

  /** A refresh-token document: owner, the token itself, and the expiry instant
      in milliseconds. */
  datatype TokenRecord = TokenRecord(userId: UserId, token: Token, expiresAt: int)
}
