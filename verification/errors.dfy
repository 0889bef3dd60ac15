/** The application's error classes: a base `AppError` carrying an HTTP status
    code, a "fail"/"error" status word derived from it, and an operational flag,
    plus the subclasses that fix the code and shape the message. */
module Errors {
  import opened Text

  /** The concrete class an error was constructed as; its `name` in the source. */
  datatype ErrorClass =
    | Base
    | BadRequest
    | Unauthorized
    | RateLimit
    | ServerFailed
    | DatabaseNotFound

  function ClassName(c: ErrorClass): string {
    match c
    case Base => "AppError"
    case BadRequest => "BadRequestError"
    case Unauthorized => "UnauthorizedError"
    case RateLimit => "RateLimitError"
    case ServerFailed => "ServerFailedError"
    case DatabaseNotFound => "DatabaseNotFoundError"
  }

  /** Each class has its own name, and none is the schema validator's
      `ValidationError`, so a handler that tests `name` tells them apart. */
  lemma ClassNameIdentifiesClass(a: ErrorClass, b: ErrorClass)
    ensures ClassName(a) == ClassName(b) <==> a == b
    ensures ClassName(a) != "ValidationError"
  {
  }

  datatype AppError = AppError(
    cls: ErrorClass,
    message: string,
    statusCode: int,
    status: string,
    isOperational: bool)

  /** Whatever a handler can pass on: an application error, or an error raised
      by a library (the schema validator, the database driver) that carries only
      a name and a message and no status fields. */
  datatype Thrown = App(err: AppError) | Foreign(name: string, message: string)

  function NameOf(t: Thrown): string {
    match t
    case App(e) => ClassName(e.cls)
    case Foreign(n, _) => n
  }

  function MessageOf(t: Thrown): string {
    match t
    case App(e) => e.message
    case Foreign(_, m) => m
  }

  /** The decimal form of a code starts with '4' exactly when its leading digit is 4;
      negative codes start with '-'. */
  lemma DecimalStartsWithFour(code: int)
    ensures DecimalString(code)[0] == '4' <==> LeadingDigit(code, 4)
  {
    if code >= 0 {
      FirstDigitIsLeadingDigit(code, 4);
    } else {
      assert !LeadingDigit(code, 4);
    }
  }

  /** The status word: "fail" when the decimal form of the code starts with '4'. */
  function StatusFor(statusCode: int): (s: string)
    ensures s == "fail" || s == "error"
    ensures s == "fail" <==> LeadingDigit(statusCode, 4)
  {
    DecimalStartsWithFour(statusCode);
    if DecimalString(statusCode)[0] == '4' then "fail" else "error"
  }

  /** Every 4xx code gives "fail" and every 5xx code gives "error". */
  lemma ClientAndServerCodes(code: int)
    ensures 400 <= code <= 499 ==> StatusFor(code) == "fail"
    ensures 500 <= code <= 599 ==> StatusFor(code) == "error"
  {
    if 400 <= code <= 499 {
      assert 4 * Pow10(2) <= code < 5 * Pow10(2);
    }
    if 500 <= code <= 599 {
      assert 5 * Pow10(2) <= code < 6 * Pow10(2);
      FirstDigitIsLeadingDigit(code, 5);
      FirstDigitIsLeadingDigit(code, 4);
    }
  }

  /** An error built by the `AppError` constructor: the status is derived from the code. */
  ghost predicate Constructed(e: AppError) {
    e.status == StatusFor(e.statusCode)
  }

  /** The `AppError` constructor, with `isOperational` given explicitly. */
  function NewAppErrorWith(cls: ErrorClass, message: string, statusCode: int, isOperational: bool): (e: AppError)
    ensures e.cls == cls && e.message == message && e.statusCode == statusCode
    ensures e.status == "fail" <==> LeadingDigit(statusCode, 4)
    ensures e.status == "fail" || e.status == "error"
    ensures e.isOperational == isOperational
    ensures Constructed(e)
  {
    AppError(cls, message, statusCode, StatusFor(statusCode), isOperational)
  }

  /** `new AppError(message, statusCode)`: operational by default. */
  function NewAppError(message: string, statusCode: int): (e: AppError)
    ensures e.cls == Base && e.message == message && e.statusCode == statusCode
    ensures e.status == "fail" <==> LeadingDigit(statusCode, 4)
    ensures e.isOperational && Constructed(e)
  {
    NewAppErrorWith(Base, message, statusCode, true)
  }

  function BadRequestError(message: string): (e: AppError)
    ensures e.cls == BadRequest && e.statusCode == 400 && e.status == "fail"
    ensures e.message == "BadRequest: " + message
    ensures e.isOperational && Constructed(e)
  {
    ClientAndServerCodes(400);
    NewAppErrorWith(BadRequest, "BadRequest: " + message, 400, true)
  }

  function UnauthorizedError(message: string): (e: AppError)
    ensures e.cls == Unauthorized && e.statusCode == 401 && e.status == "fail"
    ensures e.message == message
    ensures e.isOperational && Constructed(e)
  {
    ClientAndServerCodes(401);
    NewAppErrorWith(Unauthorized, message, 401, true)
  }

  const RateLimitMessage := "Too many requests, please try again later"

  function RateLimitError(): (e: AppError)
    ensures e.cls == RateLimit && e.statusCode == 429 && e.status == "fail"
    ensures e.message == RateLimitMessage
    ensures e.isOperational && Constructed(e)
  {
    ClientAndServerCodes(429);
    NewAppErrorWith(RateLimit, RateLimitMessage, 429, true)
  }

  const ServerFailedDefaultMessage := "Server failed error."

  function ServerFailedErrorWith(message: string): (e: AppError)
    ensures e.cls == ServerFailed && e.statusCode == 500 && e.status == "error"
    ensures e.message == message
    ensures e.isOperational && Constructed(e)
  {
    ClientAndServerCodes(500);
    NewAppErrorWith(ServerFailed, message, 500, true)
  }

  /** `new ServerFailedError()`, with the default message. */
  function ServerFailedError(): (e: AppError)
    ensures e.cls == ServerFailed && e.statusCode == 500 && e.status == "error"
    ensures e.message == ServerFailedDefaultMessage
    ensures e.isOperational && Constructed(e)
  {
    ServerFailedErrorWith(ServerFailedDefaultMessage)
  }

  /** `new DatabaseNotFoundError(message, statusCode, isOperational)`. */
  function DatabaseNotFoundErrorWith(message: string, statusCode: int, isOperational: bool): (e: AppError)
    ensures e.cls == DatabaseNotFound && e.statusCode == statusCode
    ensures e.message == "Not Found: " + message
    ensures 400 <= statusCode <= 499 ==> e.status == "fail"
    ensures 500 <= statusCode <= 599 ==> e.status == "error"
    ensures e.isOperational == isOperational && Constructed(e)
  {
    ClientAndServerCodes(statusCode);
    NewAppErrorWith(DatabaseNotFound, "Not Found: " + message, statusCode, isOperational)
  }

  /** `new DatabaseNotFoundError(message)`: code 500, operational. */
  function DatabaseNotFoundError(message: string): (e: AppError)
    ensures e.cls == DatabaseNotFound && e.statusCode == 500 && e.status == "error"
    ensures e.message == "Not Found: " + message
    ensures e.isOperational
  {
    DatabaseNotFoundErrorWith(message, 500, true)
  }
}
