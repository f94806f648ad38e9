/**
 * The controller advice that turns an escaping exception into a response.
 * Spring picks the handler declared for the closest superclass of the
 * exception, so a subclass of ApplicationException with a handler of its
 * own never reaches the ApplicationException handler, and an exception
 * with no handler on its way up to Exception gets the generic 500 body.
 */
module ExceptionHandler {
  import opened Base
  import opened Validation

  /** An HTTP response: status code and body text. */
  datatype Response = Response(status: int, body: string)

  const GENERIC_ERROR: string := "An unexpected error occurred. Please try again later."

  /** The exception classes that extend ApplicationException. */
  predicate IsApplicationException(f: Failure)
  {
    f.ValidationEx? || f.UserNotFoundEx? || f.AuthenticationFailedEx? || f.RoleAssignmentEx?
    || f.RegistrationEx? || f.ApplicationEx?
  }

  /** The exception classes that have a handler of their own. */
  predicate HasOwnHandler(f: Failure)
  {
    f.UserNotFoundEx? || f.ValidationEx? || f.BadRequestEx? || f.ConflictEx? || f.AuthenticationFailedEx?
    || f.RoleAssignmentEx? || f.RegistrationEx? || f.UnauthorizedEx? || f.ApplicationEx?
  }

  /**
   * The status each handler answers with: 404 for a missing user; 400 for
   * validation, bad requests and conflicts; 401 for failed authentication;
   * 403 for role assignment and authorization; 409 for registration; 500
   * for ApplicationException itself.
   */
  function OwnStatus(f: Failure): int
    requires HasOwnHandler(f)
  {
    match f
    case UserNotFoundEx(_) => 404
    case ValidationEx(_) => 400
    case BadRequestEx(_) => 400
    case ConflictEx(_) => 400
    case AuthenticationFailedEx(_) => 401
    case RoleAssignmentEx(_) => 403
    case RegistrationEx(_) => 409
    case UnauthorizedEx(_) => 403
    case ApplicationEx(_) => 500
  }

  /**
   * The response for an exception: a class with its own handler answers
   * with that handler's status and the exception's message; every other
   * class (not-found of roles and expenses, external-service and database
   * failures, any runtime exception) is a 500 with the generic text.
   */
  function Handle(f: Failure): (r: Response)
    ensures HasOwnHandler(f) ==> r == Response(OwnStatus(f), f.msg)
    ensures !HasOwnHandler(f) ==> r == Response(500, GENERIC_ERROR)
    ensures r.status in {400, 401, 403, 404, 409, 500}
  {
    if HasOwnHandler(f) then Response(OwnStatus(f), f.msg) else Response(500, GENERIC_ERROR)
  }

  /**
   * The most specific handler wins: an ApplicationException subclass is
   * answered with 500 only when it is ApplicationException itself, and
   * always with its own message.
   */
  lemma MostSpecificHandlerWins(f: Failure)
    requires IsApplicationException(f)
    ensures Handle(f).body == f.msg
    ensures Handle(f).status == 500 <==> f.ApplicationEx?
  {
  }

  /**
   * Exceptions outside the application hierarchy without a handler of
   * their own, the external-service failure among them, never reach the
   * client with their message or with 503.
   */
  lemma UnhandledAreGeneric(msg: string)
    ensures Handle(ExternalServiceEx(msg)) == Response(500, GENERIC_ERROR)
    ensures Handle(DatabaseEx(msg)) == Response(500, GENERIC_ERROR)
    ensures Handle(RoleNotFoundEx(msg)) == Response(500, GENERIC_ERROR)
    ensures Handle(NotFoundEx(msg)) == Response(500, GENERIC_ERROR)
    ensures Handle(RuntimeEx(msg)) == Response(500, GENERIC_ERROR)
  {
  }

  /** Every client error (status below 500) carries the exception's own message. */
  lemma ClientErrorsCarryMessage(f: Failure)
    ensures Handle(f).status < 500 ==> Handle(f).body == f.msg
    ensures Handle(f).status < 500 <==> HasOwnHandler(f) && !f.ApplicationEx?
  {
  }

  // ---------------------------------------------------------------- field errors

  /** The message of the last error on the field, as a map that is written in order keeps it. */
  function LastMessage(errors: seq<FieldError>, field: string): (m: Option<string>)
    ensures m.None? <==> forall i :: 0 <= i < |errors| ==> errors[i].field != field
    ensures m.Some? ==> exists i :: 0 <= i < |errors| && errors[i] == FieldError(field, m.value)
  {
    if errors == [] then None
    else if errors[|errors| - 1].field == field then Some(errors[|errors| - 1].message)
    else LastMessage(errors[..|errors| - 1], field)
  }

  /**
   * handleValidationExceptions (answered with 400): puts each field error
   * into a map in turn, so the map holds one entry per field, carrying the
   * message of that field's last error.
   */
  method FieldErrorMap(errors: seq<FieldError>) returns (m: map<string, string>)
    ensures forall f :: f in m <==> exists i :: 0 <= i < |errors| && errors[i].field == f
    ensures forall f :: f in m ==> Some(m[f]) == LastMessage(errors, f)
  {
    m := map[];
    var i := 0;
    while i < |errors|
      invariant 0 <= i <= |errors|
      invariant forall f :: f in m <==> exists j :: 0 <= j < i && errors[j].field == f
      invariant forall f :: f in m ==> Some(m[f]) == LastMessage(errors[..i], f)
    {
      var next := errors[..i + 1];
      assert next[..i] == errors[..i] && next[i] == errors[i];
      forall f ensures LastMessage(next, f) == if errors[i].field == f then Some(errors[i].message) else LastMessage(errors[..i], f) {
      }
      m := m[errors[i].field := errors[i].message];
      i := i + 1;
    }
    assert errors[..i] == errors;
  }

  // ---------------------------------------------------------------- unreadable bodies

  /** `text.contains(part)`. */
  predicate Contains(text: string, part: string)
  {
    StartsWith(text, part) || (text != [] && Contains(text[1..], part))
  }

  /** Why a request body could not be read: a date that did not parse, or anything else. */
  datatype ReadFailure = DateParseFailure(parsed: string, reason: string) | OtherReadFailure

  /**
   * handleInvalidFormat: a one-entry map under "error". A date that did
   * not parse is explained by the parser's reason (month out of range,
   * day out of range, or anything else); every other unreadable body is
   * malformed JSON. The status is 400.
   */
  function UnreadableBody(e: ReadFailure): (r: map<string, string>)
    ensures r.Keys == {"error"}
    ensures e.OtherReadFailure? ==> r["error"] == "Malformed request. Please check your JSON format."
    ensures e.DateParseFailure? && Contains(e.reason, "Invalid value for MonthOfYear") ==>
      r["error"] == "Invalid month value in date: " + e.parsed + ". Valid months are 01 to 12."
    ensures (e.DateParseFailure? && !Contains(e.reason, "Invalid value for MonthOfYear")
             && Contains(e.reason, "Invalid value for DayOfMonth")) ==>
      r["error"] == "Invalid day value in date: " + e.parsed + ". Please check the number of days in the month."
    ensures (e.DateParseFailure? && !Contains(e.reason, "Invalid value for MonthOfYear")
             && !Contains(e.reason, "Invalid value for DayOfMonth")) ==>
      r["error"] == "Invalid date format or value: " + e.parsed + ". Expected format: yyyy-MM-dd."
  {
    match e
    case OtherReadFailure => map["error" := "Malformed request. Please check your JSON format."]
    case DateParseFailure(parsed, reason) =>
      if Contains(reason, "Invalid value for MonthOfYear") then
        map["error" := "Invalid month value in date: " + parsed + ". Valid months are 01 to 12."]
      else if Contains(reason, "Invalid value for DayOfMonth") then
        map["error" := "Invalid day value in date: " + parsed + ". Please check the number of days in the month."]
      else
        map["error" := "Invalid date format or value: " + parsed + ". Expected format: yyyy-MM-dd."]
  }

  /** handleTypeMismatch: 400 naming the parameter that did not convert. */
  function TypeMismatch(parameter: string): (r: Response)
    ensures r.status == 400
    ensures r.body == "Invalid value for parameter '" + parameter + "'. Expected format: yyyy-MM-dd"
  {
    Response(400, "Invalid value for parameter '" + parameter + "'. Expected format: yyyy-MM-dd")
  }

  /** handleNoHandlerFound: 404 naming the unknown endpoint. */
  function NoHandlerFound(url: string): (r: Response)
    ensures r.status == 404
    ensures r.body == "The requested endpoint '" + url + "' does not exist."
  {
    Response(404, "The requested endpoint '" + url + "' does not exist.")
  }
}
