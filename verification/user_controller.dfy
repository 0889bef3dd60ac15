/** The user store: a sequence of users in insertion order, and the four
    controller operations over it. A database failure is a collaborator outcome:
    `fault` is the error the first round-trip raises, if any. */
module UserController {
  import opened Wrappers
  import opened Text
  import opened Errors
  import opened Users
  import opened UserSchema

  /** The fields a caller hands to `createUser`. */
  datatype NewUser = NewUser(
    username: string,
    password: string,
    name: string,
    email: string,
    lastName: Option<string>,
    role: Option<string>)

  const AlreadyRegistered := "The user is already registered."
  const CannotDeleteMissing := "You cannot delete a user that does not exist."

  /** The schema validator's error. Its message lists the failing paths; that
      text is not modelled. */
  const ValidationFailure := Foreign("ValidationError", "User validation failed")

  /** The filter `{$or: [{username: key}, {email: key}]}`; `key` is the trimmed
      query value, as the schema's setters trim query values too. */
  predicate Matches(u: User, key: string) {
    u.username == key || u.email == key
  }

  /** Position of the first user in the filter's natural order, or `|users|`. */
  function FirstMatch(users: seq<User>, key: string): (i: nat)
    ensures i <= |users|
    ensures i < |users| ==> Matches(users[i], key)
    ensures forall j | 0 <= j < i :: !Matches(users[j], key)
  {
    if |users| == 0 then 0
    else if Matches(users[0], key) then 0
    else 1 + FirstMatch(users[1..], key)
  }

  /** The store the schema and its unique indexes maintain: every user passes
      the field rules, and ids, usernames and emails are each unique. */
  ghost predicate WellFormed(users: seq<User>) {
    AllValid(users) && Distinct(users)
  }

  ghost predicate AllValid(users: seq<User>) {
    forall i | 0 <= i < |users| :: ValidStored(users[i])
  }

  ghost predicate Distinct(users: seq<User>) {
    forall i, j | 0 <= i < j < |users| ::
      && users[i].id != users[j].id
      && users[i].username != users[j].username
      && users[i].email != users[j].email
  }

  /** In a well-formed store an identifier matches at most one user: usernames
      and emails are unique, and no username is an email. */
  lemma AtMostOneMatch(users: seq<User>, key: string)
    ensures WellFormed(users) ==>
      forall i, j | 0 <= i < |users| && 0 <= j < |users| && Matches(users[i], key) && Matches(users[j], key) :: i == j
  {
    if WellFormed(users) {
      UsernameIsNeverEmail(key);
      forall i, j | 0 <= i < |users| && 0 <= j < |users| && Matches(users[i], key) && Matches(users[j], key)
        ensures i == j
      {
        assert ValidStored(users[i]) && ValidStored(users[j]);
      }
    }
  }

  /** `findUserByIdentifier`: the first user whose username or email equals the
      trimmed identifier; rethrows a database error. */
  function FindUserByIdentifier(users: seq<User>, identifier: string, fault: Option<Thrown>): (r: Result<Option<User>, Thrown>)
    ensures fault.Some? ==> r == Err(fault.value)
    ensures fault.None? ==> r.Ok?
    ensures r.Ok? && r.value.Some? ==> r.value.value in users && Matches(r.value.value, Trim(identifier))
    ensures r.Ok? && r.value.None? ==> forall u | u in users :: !Matches(u, Trim(identifier))
    ensures WellFormed(users) && r.Ok? ==>
      forall u | u in users && Matches(u, Trim(identifier)) :: r.value == Some(u)
  {
    AtMostOneMatch(users, Trim(identifier));
    if fault.Some? then Err(fault.value)
    else
      var i := FirstMatch(users, Trim(identifier));
      if i < |users| then Ok(Some(users[i])) else Ok(None)
  }

  /** The existence check of `createUser`: each field is compared with its own key. */
  predicate Duplicate(users: seq<User>, input: NewUser) {
    exists i | 0 <= i < |users| ::
      users[i].username == Trim(input.username) || users[i].email == Trim(input.email)
  }

  /** When the existence check lets a new user through, neither its username nor
      its email is the login identifier of anyone already stored: the check
      compares each field with its own key, and the schema rules keep stored
      emails apart from usernames and stored usernames apart from emails. */
  lemma NotDuplicateMeansNotFound(users: seq<User>, input: NewUser)
    requires AllValid(users) && !Duplicate(users, input)
    ensures ValidUsername(input.username) ==> FindUserByIdentifier(users, input.username, None) == Ok(None)
    ensures ValidEmail(input.email) ==> FindUserByIdentifier(users, input.email, None) == Ok(None)
  {
    forall i | 0 <= i < |users|
      ensures ValidUsername(input.username) ==> !Matches(users[i], Trim(input.username))
      ensures ValidEmail(input.email) ==> !Matches(users[i], Trim(input.email))
    {
      assert ValidStored(users[i]);
      UsernameIsNeverEmail(users[i].email);
      UsernameIsNeverEmail(users[i].username);
    }
  }

  /** `user.last_name || "undefined"`: an absent or empty last name gets the default. */
  function GivenLastName(v: Option<string>): Option<string> {
    if v.Some? && v.value != "" then v else None
  }

  function StoredLastName(v: Option<string>): string {
    match GivenLastName(v)
    case None => DefaultLastName
    case Some(s) => Trim(s)
  }

  /** The schema accepts the new document: every raw field passes its validator,
      and the password rule is applied to the hash, not to the plaintext. */
  ghost predicate Accepted(input: NewUser, hashed: Option<string>) {
    && ValidName(input.name)
    && ValidLastName(GivenLastName(input.lastName))
    && ValidUsername(input.username)
    && ValidEmail(input.email)
    && hashed.Some? && PasswordRule(hashed.value)
    && CastRole(input.role).Some?
  }

  /** The document `createUser` saves: trimmed fields, the hash as password. */
  function Document(input: NewUser, hashed: string, role: Role, newId: UserId): User {
    User(newId, Trim(input.name), StoredLastName(input.lastName), Trim(input.username),
         hashed, Trim(input.email), role)
  }

  lemma DocumentValidIffAccepted(input: NewUser, hashed: Option<string>, newId: UserId)
    requires hashed.Some? && CastRole(input.role).Some?
    ensures ValidStored(Document(input, hashed.value, CastRole(input.role).value, newId)) <==> Accepted(input, hashed)
  {
    DefaultLastNameIsValid();
  }

  /** `createUser`: refuse a taken username or email, hash the password (a
      failed hash leaves the required password empty), validate, and append.
      `hash` is the outcome of the salted hash for this call; `newId` the id the
      database assigns. */
  function CreateUser(users: seq<User>, input: NewUser, hash: string -> Option<string>, fault: Option<Thrown>, newId: UserId): (r: Result<seq<User>, Thrown>)
    ensures fault.Some? ==> r == Err(fault.value)
    ensures fault.None? && Duplicate(users, input) ==> r == Err(App(BadRequestError(AlreadyRegistered)))
    ensures fault.None? && !Duplicate(users, input) && r.Err? ==> r.error == ValidationFailure
    ensures r.Ok? <==> fault.None? && !Duplicate(users, input) && Accepted(input, hash(input.password))
    ensures r.Ok? ==>
      && |r.value| == |users| + 1
      && r.value[..|users|] == users
      && var u := r.value[|users|];
      && u.id == newId
      && u.password == hash(input.password).value
      && u.username == Trim(input.username)
      && u.email == Trim(input.email)
      && u.name == Trim(input.name)
      && u.lastName == StoredLastName(input.lastName)
      && Some(u.role) == CastRole(input.role)
      && ValidStored(u)
  {
    if fault.Some? then Err(fault.value)
    else if Duplicate(users, input) then Err(App(BadRequestError(AlreadyRegistered)))
    else
      var hashed := hash(input.password);
      var role := CastRole(input.role);
      if hashed.None? || role.None? then Err(ValidationFailure)
      else
        var doc := Document(input, hashed.value, role.value, newId);
        DocumentValidIffAccepted(input, hashed, newId);
        if ValidStored(doc) then
          assert (users + [doc])[..|users|] == users;
          Ok(users + [doc])
        else Err(ValidationFailure)
  }

  /** A successful `createUser` keeps the store well formed, given that the
      database hands out an id no stored user has. */
  lemma CreateUserPreservesWellFormed(users: seq<User>, input: NewUser, hash: string -> Option<string>, newId: UserId)
    requires WellFormed(users)
    requires forall i | 0 <= i < |users| :: users[i].id != newId
    ensures CreateUser(users, input, hash, None, newId).Ok? ==> WellFormed(CreateUser(users, input, hash, None, newId).value)
  {
    var r := CreateUser(users, input, hash, None, newId);
    if r.Ok? {
      var s := r.value;
      assert s == users + [s[|users|]];
      forall i, j | 0 <= i < j < |s|
        ensures s[i].id != s[j].id && s[i].username != s[j].username && s[i].email != s[j].email
      {
        if j == |users| {
          assert !(users[i].username == Trim(input.username) || users[i].email == Trim(input.email));
        }
      }
    }
  }

  /** `deleteUser`: look the identifier up, throw a "Not Found" error when
      nobody matches, and otherwise delete the first matching user. */
  function DeleteUser(users: seq<User>, identifier: string, fault: Option<Thrown>): (r: Result<seq<User>, Thrown>)
    ensures fault.Some? ==> r == Err(fault.value)
    ensures fault.None? ==> (r.Err? <==> forall u | u in users :: !Matches(u, Trim(identifier)))
    ensures fault.None? && r.Err? ==> r.error == App(DatabaseNotFoundError(CannotDeleteMissing))
    ensures r.Ok? ==> |r.value| + 1 == |users|
    ensures r.Ok? ==> forall u | u in r.value :: u in users
    ensures r.Ok? ==> forall u | u in users && !Matches(u, Trim(identifier)) :: u in r.value
    ensures r.Ok? ==>
      exists i | 0 <= i < |users| && Matches(users[i], Trim(identifier)) :: r.value == users[..i] + users[i + 1..]
  {
    match FindUserByIdentifier(users, identifier, fault)
    case Err(e) => Err(e)
    case Ok(None) => Err(App(DatabaseNotFoundError(CannotDeleteMissing)))
    case Ok(Some(_)) =>
      var i := FirstMatch(users, Trim(identifier));
      assert users == users[..i] + [users[i]] + users[i + 1..];
      Ok(users[..i] + users[i + 1..])
  }

  /** In a well-formed store `deleteUser` removes exactly the one user the
      identifier names. */
  lemma DeleteUserRemovesOnlyTheMatch(users: seq<User>, identifier: string)
    requires WellFormed(users)
    ensures DeleteUser(users, identifier, None).Ok? ==>
      forall u :: u in DeleteUser(users, identifier, None).value <==> u in users && !Matches(u, Trim(identifier))
  {
    var r := DeleteUser(users, identifier, None);
    if r.Ok? {
      var key := Trim(identifier);
      var i := FirstMatch(users, key);
      AtMostOneMatch(users, key);
      RemoveOnlyMatch(users, i, key);
    }
  }

  /** Dropping position `i`, the only position that matches `key`, leaves
      exactly the users that do not match. */
  lemma RemoveOnlyMatch(users: seq<User>, i: int, key: string)
    requires 0 <= i < |users| && Matches(users[i], key)
    requires forall j | 0 <= j < |users| && Matches(users[j], key) :: j == i
    ensures forall u :: u in users[..i] + users[i + 1..] <==> u in users && !Matches(u, key)
  {
    var s := users[..i] + users[i + 1..];
    RemoveAtIndex(users, i);
    forall u ensures u in s <==> u in users && !Matches(u, key) {
      if u in s {
        var k :| 0 <= k < |s| && s[k] == u;
        if k >= i {
          assert users[k + 1] == u;
        } else {
          assert users[k] == u;
        }
      }
      if u in users && !Matches(u, key) {
        var k :| 0 <= k < |users| && users[k] == u;
        if k < i { assert s[k] == u; } else { assert s[k - 1] == u; }
      }
    }
  }

  lemma RemoveAtIndex(users: seq<User>, i: int)
    requires 0 <= i < |users|
    ensures forall k | 0 <= k < |users| - 1 ::
      (users[..i] + users[i + 1..])[k] == (if k < i then users[k] else users[k + 1])
  {
  }

  /** Dropping one user keeps a store well formed. */
  lemma RemoveKeepsWellFormed(users: seq<User>, i: int)
    requires 0 <= i < |users| && WellFormed(users)
    ensures WellFormed(users[..i] + users[i + 1..])
  {
    RemoveKeepsDistinct(users, i);
    RemoveKeepsValid(users, i);
  }

  lemma RemoveKeepsDistinct(users: seq<User>, i: int)
    requires 0 <= i < |users| && Distinct(users)
    ensures Distinct(users[..i] + users[i + 1..])
  {
    var s := users[..i] + users[i + 1..];
    RemoveAtIndex(users, i);
    forall a, b | 0 <= a < b < |s|
      ensures s[a].id != s[b].id && s[a].username != s[b].username && s[a].email != s[b].email
    {
      var a' := if a < i then a else a + 1;
      var b' := if b < i then b else b + 1;
      assert s[a] == users[a'] && s[b] == users[b'] && a' < b';
    }
  }

  lemma RemoveKeepsValid(users: seq<User>, i: int)
    requires 0 <= i < |users| && AllValid(users)
    ensures AllValid(users[..i] + users[i + 1..])
  {
    var s := users[..i] + users[i + 1..];
    RemoveAtIndex(users, i);
    forall a | 0 <= a < |s| ensures ValidStored(s[a]) {
      var a' := if a < i then a else a + 1;
      assert s[a] == users[a'];
    }
  }

  /** Deleting a user keeps the store well formed. */
  lemma DeleteUserPreservesWellFormed(users: seq<User>, identifier: string)
    requires WellFormed(users)
    ensures DeleteUser(users, identifier, None).Ok? ==> WellFormed(DeleteUser(users, identifier, None).value)
  {
    var r := DeleteUser(users, identifier, None);
    if r.Ok? {
      var i := FirstMatch(users, Trim(identifier));
      assert i < |users| && r.value == users[..i] + users[i + 1..];
      RemoveKeepsWellFormed(users, i);
    }
  }

  function FirstWithId(users: seq<User>, id: UserId): (i: nat)
    ensures i <= |users|
    ensures i < |users| ==> users[i].id == id
    ensures forall j | 0 <= j < i :: users[j].id != id
  {
    if |users| == 0 then 0
    else if users[0].id == id then 0
    else 1 + FirstWithId(users[1..], id)
  }

  /** `findUserById`: the user with that id, or `null` when there is none and
      also when the lookup fails. */
  function FindUserById(users: seq<User>, id: UserId, fault: Option<Thrown>): (r: Option<User>)
    ensures r.Some? ==> fault.None? && r.value in users && r.value.id == id
    ensures r.None? ==> fault.Some? || forall u | u in users :: u.id != id
  {
    if fault.Some? then None
    else
      var i := FirstWithId(users, id);
      if i < |users| then Some(users[i]) else None
  }

  /** In a well-formed store the lookup by id finds the user holding that id. */
  lemma FindUserByIdFindsTheHolder(users: seq<User>, u: User)
    requires Distinct(users) && u in users
    ensures FindUserById(users, u.id, None) == Some(u)
  {
    var k := FirstWithId(users, u.id);
    var i :| 0 <= i < |users| && users[i] == u;
    assert k == i;
  }
}
