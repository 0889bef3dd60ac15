/** `POST /auth/register`: create a user from the request body. */
module RegisterRoute {
  import opened Wrappers
  import opened Errors
  import opened Users
  import opened UserController
  import opened Http

  datatype RegisterRequest = RegisterRequest(
    username: Option<string>,
    password: Option<string>,
    name: Option<string>,
    email: Option<string>,
    lastName: Option<string>)

  /** The outcome, and the user store afterwards. */
  datatype RegisterResult = RegisterResult(outcome: Outcome, users: seq<User>)

  const AllFieldsRequired := "All fields are required."
  const Registered := "Successfully registered."

  /** The presence check: the last name is optional. */
  predicate Complete(req: RegisterRequest) {
    Truthy(req.username) && Truthy(req.password) && Truthy(req.name) && Truthy(req.email)
  }

  /** The body handed to `createUser`; the route passes no role. */
  function InputOf(req: RegisterRequest): NewUser
    requires Complete(req)
  {
    NewUser(req.username.value, req.password.value, req.name.value, req.email.value, req.lastName, None)
  }

  /** Errors the route forwards unchanged: instances of `BadRequestError`, and
      anything whose name is `ValidationError`. */
  predicate PassedThrough(t: Thrown) {
    (t.App? && t.err.cls == BadRequest) || NameOf(t) == "ValidationError"
  }

  /** `register`. Any other failure of `createUser` is replaced by a generic
      `ServerFailedError`. */
  function Register(req: RegisterRequest, users: seq<User>, env: Env, newId: UserId): (r: RegisterResult)
    ensures !Complete(req) ==> r == RegisterResult(Forward(App(BadRequestError(AllFieldsRequired))), users)
    ensures r.outcome.Reply? <==>
      Complete(req) && env.userFault.None? && !Duplicate(users, InputOf(req)) && Accepted(InputOf(req), env.hash(req.password.value))
    ensures r.outcome.Reply? ==>
      && r.outcome == Reply(201, Message(Registered))
      && |r.users| == |users| + 1
      && r.users[..|users|] == users
      && r.users[|users|].id == newId
      && r.users[|users|].username == Text.Trim(req.username.value)
      && r.users[|users|].email == Text.Trim(req.email.value)
      && r.users[|users|].role == Default
    ensures r.outcome.Forward? ==> r.users == users
    ensures Complete(req) && env.userFault.None? && Duplicate(users, InputOf(req)) ==>
      r.outcome == Forward(App(BadRequestError(UserController.AlreadyRegistered)))
    ensures Complete(req) && env.userFault.Some? ==>
      r.outcome == Forward(if PassedThrough(env.userFault.value) then env.userFault.value else App(ServerFailedError()))
    ensures Complete(req) && env.userFault.None? && !Duplicate(users, InputOf(req)) &&
            !Accepted(InputOf(req), env.hash(req.password.value)) ==>
      r.outcome == Forward(ValidationFailure)
    ensures r.outcome.Forward? ==>
      PassedThrough(r.outcome.error) || r.outcome.error == App(ServerFailedError())
  {
    if !Complete(req) then
      RegisterResult(Forward(App(BadRequestError(AllFieldsRequired))), users)
    else
      match CreateUser(users, InputOf(req), env.hash, env.userFault, newId)
      case Ok(after) => RegisterResult(Reply(201, Message(Registered)), after)
      case Err(e) =>
        RegisterResult(Forward(if PassedThrough(e) then e else App(ServerFailedError())), users)
  }
}
