/**
 * The persistent entities of the application: users (the security
 * principal), roles, expenses and revoked tokens, with the derived views
 * that Spring Security reads from a user.
 *
 * Identifiers (UUIDs in the application) are natural numbers; instants
 * (LocalDateTime) are integer seconds; calendar dates (LocalDate) are
 * integer day numbers; monetary amounts (BigDecimal) are reals.
 */
module Entities {
  import opened Base

  type UserId = nat
  type RoleId = nat
  type ExpenseId = nat

  /** Seconds in one hour and in one day. */
  const HOUR: int := 3600
  const DAY: int := 86400

  /** The role names of the application. */
  const EMPLOYEE_ROLE: string := "EMPLOYEE"
  const SUPER_ADMIN_ROLE: string := "SUPER_ADMIN"
  const FINANCE_ADMIN_ROLE: string := "FINANCE_ADMIN"

  /**
   * A role. `isDeleted` is a boxed Boolean: a role built without setting it
   * holds null, which is neither true nor false to the database.
   */
  datatype Role = Role(
    id: Option<RoleId>,
    name: Option<string>,
    description: Option<string>,
    isDeleted: Option<bool>)

  /**
   * A user account. The three lockout fields are read and written by the
   * login service. `roles` is null until a service assigns a set.
   */
  datatype User = User(
    id: UserId,
    email: string,
    password: string,
    firstName: Option<string>,
    lastName: Option<string>,
    address: Option<string>,
    department: Option<string>,
    project: Option<string>,
    employeeId: Option<string>,
    isActive: bool,
    isDeleted: bool,
    roles: Option<set<RoleId>>,
    failedAttempts: int,
    lastFailedAttempt: Option<int>,
    lockedUntil: Option<int>)

  /** Active and not soft-deleted: the filter of the "active" finders. */
  predicate IsLive(u: User)
  {
    u.isActive && !u.isDeleted
  }

  /** getUsername: the principal's name is its email. */
  function Username(u: User): (r: string)
    ensures r == u.email
  {
    u.email
  }

  /** isEnabled reads the active flag and nothing else. */
  predicate IsEnabled(u: User)
  {
    u.isActive
  }

  /** isAccountNonLocked, isAccountNonExpired, isCredentialsNonExpired. */
  predicate AccountNonLocked(u: User) { true }
  predicate AccountNonExpired(u: User) { true }
  predicate CredentialsNonExpired(u: User) { true }

  /**
   * The lockout fields are invisible to Spring Security's own account
   * checks: two users that differ only in them report the same flags.
   */
  lemma LockoutNotReflectedInFlags(u: User, f: int, last: Option<int>, locked: Option<int>)
    ensures var v := u.(failedAttempts := f, lastFailedAttempt := last, lockedUntil := locked);
      AccountNonLocked(v) && AccountNonExpired(v) && CredentialsNonExpired(v)
      && IsEnabled(v) == IsEnabled(u) && Username(v) == Username(u)
  {
  }

  /** A granted authority needs a name with text (Spring rejects null or blank). */
  predicate HasText(s: Option<string>)
  {
    s.Some? && !IsBlank(s.value)
  }

  /**
   * getAuthorities: one authority per role, named by the role's name.
   * Streaming a null role set, or naming an authority with no text, throws.
   */
  function Authorities(u: User, roles: map<RoleId, Role>): (r: Result<set<string>>)
    ensures u.roles.None? ==> r.Err?
    ensures r.Ok? <==> u.roles.Some? && forall id :: id in u.roles.value ==> id in roles && HasText(roles[id].name)
    ensures r.Ok? ==> forall a :: a in r.value <==>
      exists id :: id in u.roles.value && id in roles && roles[id].name == Some(a)
  {
    if u.roles.None? then Err(RuntimeEx("roles is null"))
    else if exists id :: id in u.roles.value && !(id in roles && HasText(roles[id].name)) then
      Err(RuntimeEx("A granted authority textual representation is required"))
    else
      var names := set id | id in u.roles.value && id in roles && roles[id].name.Some? :: roles[id].name.value;
      assert forall a :: a in names ==> exists id :: id in u.roles.value && id in roles && roles[id].name == Some(a);
      Ok(names)
  }

  /** The expense workflow states; APPROVED and REJECTED are final. */
  datatype ExpenseStatus = PENDING | APPROVED | REJECTED

  /** Enum.name(). */
  function StatusName(s: ExpenseStatus): string
  {
    match s
    case PENDING => "PENDING"
    case APPROVED => "APPROVED"
    case REJECTED => "REJECTED"
  }

  /** ExpenseStatus.valueOf: the exact constant name, or no constant. */
  function ParseStatus(s: string): (r: Option<ExpenseStatus>)
    ensures r.Some? ==> StatusName(r.value) == s
    ensures (exists t :: StatusName(t) == s) ==> r.Some?
  {
    if s == "PENDING" then Some(PENDING)
    else if s == "APPROVED" then Some(APPROVED)
    else if s == "REJECTED" then Some(REJECTED)
    else None
  }

  /** valueOf inverts name() and name() inverts valueOf. */
  lemma StatusNameRoundTrip(t: ExpenseStatus, s: string)
    ensures ParseStatus(StatusName(t)) == Some(t)
    ensures ParseStatus(s) == Some(t) <==> s == StatusName(t)
  {
  }

  /**
   * An expense. Title, date, amount, currency, receipt URL, status and
   * requester are non-null columns; the currency column holds at most three
   * characters; approver and rejection reason are optional.
   */
  datatype Expense = Expense(
    id: ExpenseId,
    title: string,
    description: Option<string>,
    expenseDate: int,
    amount: real,
    currency: string,
    receiptUrl: string,
    status: ExpenseStatus,
    requestedBy: UserId,
    approvedBy: Option<UserId>,
    rejectionReason: Option<string>,
    isDeleted: bool)

  /** Width of the currency column. */
  const CURRENCY_COLUMN_LENGTH: nat := 3

  /** A revoked token, keyed by the token string, with the token's own expiry. */
  datatype BlacklistedToken = BlacklistedToken(token: string, expiryTime: int)

  /**
   * The two-argument constructor stores both values unchanged; two records
   * are equal exactly when they were built from the same token and expiry.
   */
  lemma BlacklistedTokenInjective(t1: string, e1: int, t2: string, e2: int)
    ensures BlacklistedToken(t1, e1) == BlacklistedToken(t2, e2) <==> t1 == t2 && e1 == e2
    ensures BlacklistedToken(t1, e1).token == t1 && BlacklistedToken(t1, e1).expiryTime == e1
  {
  }
}
