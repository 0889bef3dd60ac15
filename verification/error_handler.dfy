/** The body of the global error-handling middleware: it turns whatever was
    passed on into a response code and a `{status, message}` body. */
module ErrorHandler {
  import opened Text
  import opened Errors

  datatype ErrorResponse = ErrorResponse(code: int, status: string, message: string)

  /** Every error that reaches the handler has the status word its code calls for:
      application errors come from a constructor, library errors carry no status. */
  ghost predicate WellFormedThrown(t: Thrown) {
    t.App? ==> Constructed(t.err)
  }

  /** `err.statusCode || 500`, `err.status || "error"`, and the message verbatim. */
  function GlobalErrorHandler(t: Thrown): (r: ErrorResponse)
    ensures t.App? && t.err.statusCode != 0 ==> r.code == t.err.statusCode
    ensures t.Foreign? || t.err.statusCode == 0 ==> r.code == 500
    ensures t.App? && t.err.status != "" ==> r.status == t.err.status
    ensures t.Foreign? || t.err.status == "" ==> r.status == "error"
    ensures r.message == MessageOf(t)
    ensures WellFormedThrown(t) ==> (r.status == "fail" <==> LeadingDigit(r.code, 4))
  {
    ClientAndServerCodes(500);
    match t
    case App(e) =>
      var code := if e.statusCode != 0 then e.statusCode else 500;
      var status := if e.status != "" then e.status else "error";
      ErrorResponse(code, status, e.message)
    case Foreign(_, m) =>
      ErrorResponse(500, "error", m)
  }
}
