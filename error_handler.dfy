/** The global error handler: turns an error that reached it into the
    status code and JSON body of the response. Engine constraint errors are
    recognised by their message; everything else keeps its own status code
    (500 when it has none) and message. */
module ErrorHandler {
  import opened Common
  import opened Text

  /** `{ success: false, error, stack? }`; `success` is always false. */
  datatype ErrorBody = ErrorBody(error: string, stack: Option<string>)

  datatype ErrorResponse = ErrorResponse(status: int, body: ErrorBody)

  const DefaultMessage := "Internal Server Error"

  predicate IsUniqueViolation(message: string) {
    Contains(message, "UNIQUE constraint failed")
  }

  predicate IsCheckViolation(message: string) {
    Contains(message, "CHECK constraint failed")
  }

  /** The message a UNIQUE violation is reported with. */
  function DuplicateMessage(message: string): (m: string)
    ensures Contains(message, "users.email") ==> m == "Email already registered"
    ensures !Contains(message, "users.email") && Contains(message, "users.username") ==> m == "Username already taken"
    ensures !Contains(message, "users.email") && !Contains(message, "users.username") ==> m == "Duplicate entry"
    // the constraint text itself never reaches the client
    ensures m in {"Email already registered", "Username already taken", "Duplicate entry"}
  {
    if Contains(message, "users.email") then "Email already registered"
    else if Contains(message, "users.username") then "Username already taken"
    else "Duplicate entry"
  }

  /** The response for `err` with its `stack`, under the deployment's
      `NODE_ENV`: the stack trace is included only in development. */
  function Handle(err: Failure, stack: Option<string>, nodeEnv: Option<string>): (r: ErrorResponse)
    ensures r.status != 0
    ensures r.body.error != ""
    ensures r.body.stack.Some? <==> nodeEnv == Some("development") && stack.Some?
    ensures r.body.stack.Some? ==> r.body.stack == stack
    ensures IsCheckViolation(err.message) ==> r.status == 400 && r.body.error == "Invalid value provided"
    ensures !IsCheckViolation(err.message) && IsUniqueViolation(err.message) ==>
      r.status == 409 && r.body.error == DuplicateMessage(err.message)
    ensures !IsCheckViolation(err.message) && !IsUniqueViolation(err.message) ==>
      && r.status == (if err.statusCode != 0 then err.statusCode else 500)
      && r.body.error == (if err.message != "" then err.message else DefaultMessage)
  {
    var status := if err.statusCode != 0 then err.statusCode else 500;
    var message := if err.message != "" then err.message else DefaultMessage;
    var (status, message) :=
      if IsUniqueViolation(err.message) then (409, DuplicateMessage(err.message)) else (status, message);
    var (status, message) :=
      if IsCheckViolation(err.message) then (400, "Invalid value provided") else (status, message);
    ErrorResponse(status, ErrorBody(message, if nodeEnv == Some("development") then stack else None))
  }

  /** The text of a UNIQUE or CHECK violation raised by the engine never
      reaches the client: the body carries one of four fixed messages. */
  lemma ConstraintTextNotLeaked(err: Failure, stack: Option<string>, nodeEnv: Option<string>)
    requires IsUniqueViolation(err.message) || IsCheckViolation(err.message)
    ensures Handle(err, stack, nodeEnv).body.error in
      {"Invalid value provided", "Email already registered", "Username already taken", "Duplicate entry"}
  {
  }

  /** An application error, with its own status code and message, reaches
      the client unchanged. */
  lemma ApplicationErrorPassesThrough(err: Failure, nodeEnv: Option<string>)
    requires err.statusCode != 0 && err.message != ""
    requires !IsUniqueViolation(err.message) && !IsCheckViolation(err.message)
    ensures Handle(err, None, nodeEnv) == ErrorResponse(err.statusCode, ErrorBody(err.message, None))
  {
  }

  /** A thrown value with neither a status code nor a message, such as the
      bare string sql.js throws, is reported as 500 "Internal Server Error". */
  lemma BareThrowIsInternalError(nodeEnv: Option<string>)
    ensures Handle(Failure(0, ""), None, nodeEnv) == ErrorResponse(500, ErrorBody(DefaultMessage, None))
  {
    LacksFirstChar("", "UNIQUE constraint failed");
    LacksFirstChar("", "CHECK constraint failed");
  }

  /** The CHECK message the engine raises for a job row is reported as 400. */
  lemma CheckFailureIsBadRequest(stack: Option<string>, nodeEnv: Option<string>)
    ensures Handle(Failure(0, "CHECK constraint failed: jobs"), stack, nodeEnv).status == 400
  {
    assert OccursAt("CHECK constraint failed: jobs", "CHECK constraint failed", 0);
  }

  /** A UNIQUE violation on the email column is reported as 409. */
  lemma DuplicateEmailIsConflict(stack: Option<string>, nodeEnv: Option<string>)
    ensures Handle(Failure(0, "UNIQUE constraint failed: users.email"), stack, nodeEnv)
      == ErrorResponse(409, ErrorBody("Email already registered", if nodeEnv == Some("development") then stack else None))
  {
    var m := "UNIQUE constraint failed: users.email";
    assert OccursAt(m, "UNIQUE constraint failed", 0);
    assert OccursAt(m, "users.email", 26);
    LacksFirstChar(m, "CHECK constraint failed");
  }
}
