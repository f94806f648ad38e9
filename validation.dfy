/**
 * The bean-validation constraints of the request bodies, and the small
 * argument check of ValidationUtils. A constraint that fails yields one
 * field error (field name and message); a body is accepted when it yields
 * none. `@Pattern` and `@NotFutureDate` accept null, as bean validation
 * does; null is caught by `@NotNull` instead.
 */
module Validation {
  import opened Base

  /** A violated constraint: the field it is on and its message. */
  datatype FieldError = FieldError(field: string, message: string)

  const NOT_NULL: string := "must not be null"

  // ---------------------------------------------------------------- e-mail

  predicate LocalChar(c: char)
  {
    ('a' <= c <= 'z') || ('0' <= c <= '9') || c == '.'
  }

  predicate DomainChar(c: char)
  {
    LocalChar(c) || c == '-'
  }

  predicate TldChar(c: char)
  {
    'a' <= c <= 'z'
  }

  predicate AllLocal(s: string) { forall i :: 0 <= i < |s| ==> LocalChar(s[i]) }
  predicate AllDomain(s: string) { forall i :: 0 <= i < |s| ==> DomainChar(s[i]) }
  predicate AllTld(s: string) { forall i :: 0 <= i < |s| ==> TldChar(s[i]) }

  /**
   * The e-mail regular expression `^[a-z0-9.]+@[a-z0-9.-]+\.[a-z]{2,}$`
   * read as a split: a non-empty local part, '@', a non-empty domain, a
   * dot, and a top-level part of two or more lower-case letters.
   */
  ghost predicate EmailShape(s: string)
  {
    exists at, dot :: 0 < at && at + 1 < dot && dot + 2 < |s|
      && s[at] == '@' && s[dot] == '.'
      && AllLocal(s[..at]) && AllDomain(s[at + 1..dot]) && AllTld(s[dot + 1..])
  }

  /** The first index of c in s, if any. */
  function IndexOf(s: string, c: char): (r: Option<nat>)
    ensures r.Some? ==> r.value < |s| && s[r.value] == c && forall i :: 0 <= i < r.value ==> s[i] != c
    ensures r.None? ==> forall i :: 0 <= i < |s| ==> s[i] != c
  {
    if s == [] then None
    else if s[0] == c then Some(0)
    else match IndexOf(s[1..], c)
      case None => None
      case Some(k) => Some(k + 1)
  }

  /** The last index of c in s, if any. */
  function LastIndexOf(s: string, c: char): (r: Option<nat>)
    ensures r.Some? ==> r.value < |s| && s[r.value] == c && forall i :: r.value < i < |s| ==> s[i] != c
    ensures r.None? ==> forall i :: 0 <= i < |s| ==> s[i] != c
  {
    if s == [] then None
    else if s[|s| - 1] == c then Some(|s| - 1)
    else LastIndexOf(s[..|s| - 1], c)
  }

  /**
   * The e-mail check as the matcher settles it: the '@' is the first one
   * (the local part holds none) and the dot before the top-level part is
   * the last one (the top-level part holds none).
   */
  predicate ValidEmail(s: string)
  {
    var at := IndexOf(s, '@');
    var dot := LastIndexOf(s, '.');
    at.Some? && dot.Some? && 0 < at.value && at.value + 1 < dot.value && dot.value + 2 < |s|
    && AllLocal(s[..at.value]) && AllDomain(s[at.value + 1..dot.value]) && AllTld(s[dot.value + 1..])
  }

  /** Every string the check accepts has the regular expression's shape. */
  lemma ValidEmailHasShape(s: string)
    requires ValidEmail(s)
    ensures EmailShape(s)
  {
    var at, dot := IndexOf(s, '@').value, LastIndexOf(s, '.').value;
    assert s[at] == '@' && s[dot] == '.';
    assert AllLocal(s[..at]) && AllDomain(s[at + 1..dot]) && AllTld(s[dot + 1..]);
  }

  /** Every string of the regular expression's shape is accepted by the check. */
  lemma ShapeIsValidEmail(s: string)
    requires EmailShape(s)
    ensures ValidEmail(s)
  {
    var at, dot :| 0 < at && at + 1 < dot && dot + 2 < |s|
      && s[at] == '@' && s[dot] == '.'
      && AllLocal(s[..at]) && AllDomain(s[at + 1..dot]) && AllTld(s[dot + 1..]);
    forall i | 0 <= i < at ensures s[i] != '@' {
      assert LocalChar(s[..at][i]);
    }
    forall i | dot < i < |s| ensures s[i] != '.' {
      assert TldChar(s[dot + 1..][i - dot - 1]);
    }
    assert IndexOf(s, '@') == Some(at);
    assert LastIndexOf(s, '.') == Some(dot);
  }

  /** The check accepts exactly the strings of the regular expression's shape. */
  lemma ValidEmailIffShape(s: string)
    ensures ValidEmail(s) <==> EmailShape(s)
  {
    if ValidEmail(s) { ValidEmailHasShape(s); }
    if EmailShape(s) { ShapeIsValidEmail(s); }
  }

  const EMAIL_MESSAGE_REGISTER: string :=
    "Invalid email format. Only letters (a-z), numbers (0-9), and periods (.) are allowed. "
    + "Eg: samuel@gmail.com or muja.mil@i2i.org"
  const EMAIL_MESSAGE_USER: string :=
    "Invalid email format. Only letters (a-z), numbers (0-9), and periods (.) are allowed."

  // ---------------------------------------------------------------- password

  /** The characters `.` does not match: Java's line terminators. */
  predicate LineTerminator(c: char)
  {
    c == '\n' || c == '\r' || c == '\U{85}' || c == '\U{2028}' || c == '\U{2029}'
  }

  predicate SpecialChar(c: char)
  {
    c == '@' || c == '#' || c == '$' || c == '%' || c == '^' || c == '&' || c == '+' || c == '=' || c == '!'
  }

  /**
   * The password regular expression
   * `^(?=.*[0-9])(?=.*[a-z])(?=.*[A-Z])(?=.*[@#$%^&+=!]).{8,20}$`:
   * eight to twenty characters, none a line terminator, with a digit, a
   * lower-case letter, an upper-case letter and one of @#$%^&+=!.
   */
  predicate ValidPassword(p: string)
  {
    8 <= |p| <= 20
    && (forall i :: 0 <= i < |p| ==> !LineTerminator(p[i]))
    && (exists i :: 0 <= i < |p| && '0' <= p[i] <= '9')
    && (exists i :: 0 <= i < |p| && 'a' <= p[i] <= 'z')
    && (exists i :: 0 <= i < |p| && 'A' <= p[i] <= 'Z')
    && (exists i :: 0 <= i < |p| && SpecialChar(p[i]))
  }

  const PASSWORD_MESSAGE: string :=
    "Password must be 8–20 characters long and contain at least one uppercase letter, "
    + "one lowercase letter, one digit, and one special character (@#$%^&+=!)."

  /** The length bounds are exact: one character more or less than allowed fails. */
  lemma PasswordLengthBounds(p: string)
    ensures |p| < 8 || |p| > 20 ==> !ValidPassword(p)
    ensures ValidPassword(p) ==> |p| >= 8 && !ValidPassword(p + p + p)
  {
  }

  /** A password with all four classes and a good length passes; one missing a class fails. */
  lemma PasswordExamples()
    ensures ValidPassword("Passw0rd!")
    ensures !ValidPassword("password1!")
  {
    assert "Passw0rd!"[5] == '0' && "Passw0rd!"[1] == 'a' && "Passw0rd!"[0] == 'P' && "Passw0rd!"[8] == '!';
    var p := "password1!";
    assert forall i :: 0 <= i < |p| ==> !('A' <= p[i] <= 'Z');
  }

  // ---------------------------------------------------------------- not-future date

  /** The outcome of a constraint validator: valid, or the violations it added. */
  datatype Verdict = Verdict(valid: bool, violations: seq<string>)

  /**
   * NotFutureDateValidator.isValid: null and any day up to today are
   * valid with no violation; a later day is invalid with one message
   * naming it and today (`dateText` prints a day as yyyy-MM-dd).
   */
  function NotFutureDate(date: Option<int>, today: int, dateText: int -> string): (v: Verdict)
    ensures v.valid <==> date.None? || date.value <= today
    ensures v.valid ==> v.violations == []
    ensures !v.valid ==> |v.violations| == 1
  {
    if date.None? then Verdict(true, [])
    else if date.value <= today then Verdict(true, [])
    else Verdict(false, ["Invalid date '" + dateText(date.value) + "'! Expense date cannot be in the future. Current date: " + dateText(today)])
  }

  /** Today itself is accepted, tomorrow is not. */
  lemma TodayIsNotFuture(today: int, dateText: int -> string)
    ensures NotFutureDate(Some(today), today, dateText).valid
    ensures !NotFutureDate(Some(today + 1), today, dateText).valid
  {
  }

  // ---------------------------------------------------------------- request bodies

  /** The error for a field that must not be null. */
  function Required<T>(field: string, value: Option<T>): (e: seq<FieldError>)
    ensures e == [] <==> value.Some?
    ensures e != [] ==> e == [FieldError(field, NOT_NULL)]
  {
    if value.None? then [FieldError(field, NOT_NULL)] else []
  }

  /**
   * The blank test of `@NotBlank`'s validator, `trim().length() == 0`:
   * String.trim removes every character up to U+0020, control characters
   * included, and nothing above it.
   */
  predicate TrimBlank(s: string)
  {
    forall i :: 0 <= i < |s| ==> s[i] <= ' '
  }

  predicate NullOrTrimBlank(s: Option<string>)
  {
    s.None? || TrimBlank(s.value)
  }

  /**
   * Every string isBlank calls blank is blank to `@NotBlank` too, but not
   * the reverse: a control character such as U+0001 is trimmed away, yet
   * it is not white space.
   */
  lemma BlankIsTrimBlank(s: string)
    ensures IsBlank(s) ==> TrimBlank(s)
    ensures !TrimBlank(s) ==> !IsBlank(s)
    ensures TrimBlank("\U{1}") && !IsBlank("\U{1}")
  {
    assert !IsWhitespace("\U{1}"[0]);
  }

  /** `@NotNull @NotBlank`: a null value breaks both, a blank one only the second. */
  function RequiredText(field: string, value: Option<string>, blankMessage: string): (e: seq<FieldError>)
    ensures e == [] <==> !NullOrTrimBlank(value)
    ensures forall i :: 0 <= i < |e| ==> e[i].field == field
    ensures value.None? ==> e == [FieldError(field, NOT_NULL), FieldError(field, blankMessage)]
    ensures value.Some? && TrimBlank(value.value) ==> e == [FieldError(field, blankMessage)]
  {
    Required(field, value) + (if NullOrTrimBlank(value) then [FieldError(field, blankMessage)] else [])
  }

  /** `@Pattern`: null passes; a non-null value must match. */
  function Matching(field: string, value: Option<string>, ok: bool, message: string): (e: seq<FieldError>)
    ensures e == [] <==> value.None? || ok
    ensures forall i :: 0 <= i < |e| ==> e[i].field == field
  {
    if value.Some? && !ok then [FieldError(field, message)] else []
  }

  /** The expense request body. */
  datatype ExpenseRequest = ExpenseRequest(
    title: Option<string>,
    description: Option<string>,
    expenseDate: Option<int>,
    amount: Option<real>,
    currency: Option<string>,
    receiptUrl: Option<string>)

  /**
   * Violations of an expense request: each of the six fields is required,
   * and the date may not lie after today. The amount's sign is left to the
   * service.
   */
  function ExpenseRequestErrors(r: ExpenseRequest, today: int, dateText: int -> string): (e: seq<FieldError>)
    ensures e == [] <==>
      r.title.Some? && r.description.Some? && r.expenseDate.Some? && r.amount.Some?
      && r.currency.Some? && r.receiptUrl.Some? && r.expenseDate.value <= today
    ensures forall i :: 0 <= i < |e| ==>
      e[i].field in {"title", "description", "expenseDate", "amount", "currency", "receiptUrl"}
  {
    var d := NotFutureDate(r.expenseDate, today, dateText);
    Required("title", r.title) + Required("description", r.description)
    + Required("expenseDate", r.expenseDate)
    + (if d.valid then [] else [FieldError("expenseDate", d.violations[0])])
    + Required("amount", r.amount) + Required("currency", r.currency) + Required("receiptUrl", r.receiptUrl)
  }

  /** A non-positive amount passes bean validation; only the service rejects it. */
  lemma AmountSignNotChecked(r: ExpenseRequest, today: int, dateText: int -> string)
    requires ExpenseRequestErrors(r, today, dateText) == []
    ensures ExpenseRequestErrors(r.(amount := Some(-1.0)), today, dateText) == []
  {
  }

  /** The self-registration body. */
  datatype RegisterRequest = RegisterRequest(
    email: Option<string>,
    password: Option<string>,
    firstName: Option<string>,
    lastName: Option<string>,
    address: Option<string>,
    department: Option<string>,
    project: Option<string>)

  /**
   * Violations of a registration body: e-mail and password are required
   * and must match their patterns; the five name and place fields must
   * have text.
   */
  function RegisterErrors(r: RegisterRequest): (e: seq<FieldError>)
    ensures e == [] <==>
      r.email.Some? && ValidEmail(r.email.value)
      && r.password.Some? && ValidPassword(r.password.value)
      && !NullOrTrimBlank(r.firstName) && !NullOrTrimBlank(r.lastName) && !NullOrTrimBlank(r.address)
      && !NullOrTrimBlank(r.department) && !NullOrTrimBlank(r.project)
  {
    Required("email", r.email)
    + Matching("email", r.email, r.email.Some? && ValidEmail(r.email.value), EMAIL_MESSAGE_REGISTER)
    + Required("password", r.password)
    + Matching("password", r.password, r.password.Some? && ValidPassword(r.password.value), PASSWORD_MESSAGE)
    + RequiredText("firstName", r.firstName, "First Name is required")
    + RequiredText("lastName", r.lastName, "Last Name is required")
    + RequiredText("address", r.address, "Address is required")
    + RequiredText("department", r.department, "Department is required")
    + RequiredText("project", r.project, "Project is required")
  }

  /** The password-change body. */
  datatype PasswordRequest = PasswordRequest(
    oldPassword: Option<string>,
    newPassword: Option<string>,
    confirmPassword: Option<string>)

  /**
   * Violations of a password-change body: all three fields are required
   * and only the new password has a pattern. Equality of new and confirm
   * is left to the controller.
   */
  function PasswordRequestErrors(r: PasswordRequest): (e: seq<FieldError>)
    ensures e == [] <==>
      r.oldPassword.Some? && r.confirmPassword.Some?
      && r.newPassword.Some? && ValidPassword(r.newPassword.value)
  {
    Required("oldPassword", r.oldPassword)
    + Required("newPassword", r.newPassword)
    + Matching("newPassword", r.newPassword, r.newPassword.Some? && ValidPassword(r.newPassword.value), PASSWORD_MESSAGE)
    + Required("confirmPassword", r.confirmPassword)
  }

  /** The user body of the administrator's create and update. */
  datatype UserRequest = UserRequest(
    id: Option<nat>,
    email: Option<string>,
    roleIds: Option<seq<nat>>,
    firstName: Option<string>,
    lastName: Option<string>,
    address: Option<string>,
    department: Option<string>,
    project: Option<string>,
    employeeId: Option<string>)

  /**
   * Violations of a user body: e-mail required and well-formed, the role
   * list present (it may be empty), names, department and project present.
   * Id, address and employee id are free.
   */
  function UserRequestErrors(r: UserRequest): (e: seq<FieldError>)
    ensures e == [] <==>
      r.email.Some? && ValidEmail(r.email.value) && r.roleIds.Some?
      && r.firstName.Some? && r.lastName.Some? && r.department.Some? && r.project.Some?
  {
    Required("email", r.email)
    + Matching("email", r.email, r.email.Some? && ValidEmail(r.email.value), EMAIL_MESSAGE_USER)
    + Required("roleIds", r.roleIds)
    + Required("firstName", r.firstName)
    + Required("lastName", r.lastName)
    + Required("department", r.department)
    + Required("project", r.project)
  }

  /** Id, address and employee id carry no constraint. */
  lemma UserRequestFreeFields(r: UserRequest, id: Option<nat>, address: Option<string>, employeeId: Option<string>)
    ensures UserRequestErrors(r.(id := id, address := address, employeeId := employeeId)) == UserRequestErrors(r)
  {
  }

  /** An empty role list is accepted by the user body's constraints. */
  lemma EmptyRoleListAccepted(r: UserRequest)
    requires UserRequestErrors(r) == []
    ensures UserRequestErrors(r.(roleIds := Some([]))) == []
  {
  }

  // ---------------------------------------------------------------- ValidationUtils

  /** requestedNonNull: returns the value unchanged, or rejects null. */
  function RequestedNonNull(value: Option<string>): (r: Result<string>)
    ensures r.Ok? <==> value.Some?
    ensures r.Ok? ==> r.value == value.value
    ensures r.Err? ==> r.error == BadRequestEx("Current user email is required")
  {
    if value.None? then Err(BadRequestEx("Current user email is required")) else Ok(value.value)
  }
}
