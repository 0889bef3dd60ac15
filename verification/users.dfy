/** The user record and its role enumeration. */
module Users {

  datatype Role = Default | Admin

  function RoleName(r: Role): string {
    match r
    case Default => "DEFAULT"
    case Admin => "ADMIN"
  }

  /** The database identifier of a user; opaque to the model. */
  type UserId = nat

  /** A stored user. `password` holds the hash, never the plaintext. */
  datatype User = User(
    id: UserId,
    name: string,
    lastName: string,
    username: string,
    password: string,
    email: string,
    role: Role)
}
