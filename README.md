# Expense reimbursement and user management — a Dafny model

This project models the core of a Spring Boot service for expense
reimbursement with currency conversion. The service has five parts.

- **Accounts and roles.** Administrators create users with a generated
  employee code ("i2i", the year, a four-digit running number). Users can
  also register themselves. Profiles are edited, passwords changed and
  reset, and users soft-deleted. Roles are created, found, edited,
  soft-deleted and assigned.
- **Authentication.** Login uses e-mail and password. Failed attempts are
  counted in a sliding one-hour window, and the fifth counted failure
  locks the account for a day. A successful login returns a JWT. Logout
  blacklists the token until it expires. A filter runs on every request:
  it reads the bearer token and signs the request in when the token is
  valid, not blacklisted, and names an active user.
- **Authorization.** An ordered table of path rules, where the first
  matching rule decides, answering 401 or 403.
- **Expenses.** Employees submit, update and delete their own PENDING
  expenses. A finance administrator approves or rejects them. Listings
  and two aggregate reports show amounts converted to INR.
- **Exception handling.** A controller advice turns every escaping
  exception into an HTTP status and body. Bean-validation constraints
  guard the request bodies.

The model has two parts.

- **Pure logic** is datatypes, functions and lemmas. This covers mappers,
  finders, validation, lockout arithmetic, employee codes, authorization
  rules and the exception handler.
- **State changes** are methods on one `Store.Database` object. Its
  fields are the user, role and expense tables and the token blacklist,
  and each service method states the whole new state. The filter's
  request state is a class too: `JwtFilter.RequestContext`, holding the
  security context and a count of downstream chain calls.

The model abstracts some things:

- UUIDs are natural numbers.
- `LocalDateTime` instants are integer seconds and `LocalDate` days are
  integer day numbers.
- `BigDecimal` amounts are reals.
- A Java `null` is `Option.None`.
- An exception is a `Failure` constructor inside `Result`/`Outcome`.

Things that are not logic of the system become parameters:

- the password encoder (`encode`, `matches`);
- the clock (`now`, `year`, `today`);
- the token signer and parser (`TokenOracle`, a map from token text to
  its claims);
- the exchange-rate client (`CurrencyFeed` and `quote`);
- the identifiers the database generates (`newId`).

## Model

Source paths are relative to the repository root.

| member | source | states |
|---|---|---|
| Entities.Username | src/main/java/com/i2i/user_management/Model/User.java:71-72 | the principal's name is its e-mail |
| Entities.LockoutNotReflectedInFlags | src/main/java/com/i2i/user_management/Model/User.java:77-84 | changing the lockout counters never changes what Spring Security's account flags, enabled flag or username report; lockout lives only in the login service |
| Entities.Authorities | src/main/java/com/i2i/user_management/Model/User.java:64-69 | authorities are readable exactly when the role set is non-null and every role exists with a non-blank name; the authorities are exactly the names of the user's roles |
| Entities.ParseStatus | src/main/java/com/i2i/user_management/Service/Impl/ExpenseServiceImpl.java:334-336 | `valueOf` yields a constant only for its exact name, and yields one for every constant name |
| Entities.StatusNameRoundTrip | src/main/java/com/i2i/user_management/Service/Impl/ExpenseServiceImpl.java:334-336 | `valueOf(name(t)) == t`, and `valueOf(s) == t` exactly when `s == name(t)` |
| Entities.BlacklistedTokenInjective | src/main/java/com/i2i/user_management/Model/BlacklistedToken.java:9-25 | the two-argument constructor stores token and expiry unchanged; two records are equal exactly when built from equal arguments |
| Store.Upsert | src/main/java/com/i2i/user_management/Service/Impl/ExpenseServiceImpl.java:431 | JPA save of an expense: replaces the row with that id in place, or appends a new row |
| Store.MarkDeleted | src/main/java/com/i2i/user_management/Repository/ExpenseRepository.java:29-31 | the soft delete keeps the table's length and flags exactly the rows with that id, leaving all others untouched |
| Store.Database.constructor | src/main/java/com/i2i/user_management/Repository/UserRepository.java:18 | an empty database satisfies the table invariants |
| Store.Database.SaveUser | src/main/java/com/i2i/user_management/Repository/UserRepository.java:18 | the row keyed by the user's id becomes the user; other tables unchanged; invariant kept |
| Store.Database.SaveRole | src/main/java/com/i2i/user_management/Repository/RoleRepository.java:18 | the row under the role's own id becomes the role; other tables unchanged; invariant kept |
| Store.Database.SaveExpense | src/main/java/com/i2i/user_management/Model/Expense.java:56-57 | a row whose currency fits the three-character column is upserted; a longer currency is rejected and nothing changes |
| Store.Database.SoftDeleteUser | src/main/java/com/i2i/user_management/Repository/UserRepository.java:23-25 | only the user's deleted flag is set; every other table and row is unchanged |
| Store.Database.SoftDeleteRole | src/main/java/com/i2i/user_management/Repository/RoleRepository.java:31-33 | only the role's deleted flag is set to true |
| Store.Database.SoftDeleteExpense | src/main/java/com/i2i/user_management/Repository/ExpenseRepository.java:29-31 | the expense table becomes `MarkDeleted` of the old one |
| Store.Database.SaveToken | src/main/java/com/i2i/user_management/Model/BlacklistedToken.java:13-16 | the record is stored under its own token (the primary key) |
| UserRepository.FindByEmail | src/main/java/com/i2i/user_management/Repository/UserRepository.java:18 | found only for a row with exactly that e-mail; absent exactly when no row has it, whatever its status |
| UserRepository.FindActiveByEmail | src/main/java/com/i2i/user_management/Repository/UserRepository.java:30-34 | found only for an active, undeleted row with that e-mail; absent exactly when every row with it is inactive or deleted |
| UserRepository.FindActiveById | src/main/java/com/i2i/user_management/Repository/UserRepository.java:27-28 | the row exactly when it exists and is active and undeleted |
| UserRepository.FindAllActiveUsers | src/main/java/com/i2i/user_management/Repository/UserRepository.java:20-21 | exactly the active, undeleted users |
| UserRepository.LoginFinderOnlyEnabled | src/main/java/com/i2i/user_management/Repository/UserRepository.java:30-31 | a user the login finder returns is enabled; an e-mail held only by disabled users is not found |
| UserRepository.ActiveFinderNarrows | src/main/java/com/i2i/user_management/Repository/UserRepository.java:18-31 | the active finder finds nothing the unfiltered finder misses |
| RoleRepository.FindByName | src/main/java/com/i2i/user_management/Repository/RoleRepository.java:18 | no deleted filter: the unique role with that name is found whatever its flag; absent exactly when no role has the name |
| RoleRepository.FindAllActive | src/main/java/com/i2i/user_management/Repository/RoleRepository.java:22-23 | exactly the roles whose deleted flag is false (a null flag is neither) |
| RoleRepository.FindActiveById | src/main/java/com/i2i/user_management/Repository/RoleRepository.java:25-26 | the role exactly when it exists with flag false |
| RoleRepository.FindActiveByName | src/main/java/com/i2i/user_management/Repository/RoleRepository.java:28-29 | only an active role with the name is found; absent exactly when every role of that name is not active |
| RoleRepository.FindAllById | src/main/java/com/i2i/user_management/Service/Impl/RoleServiceImpl.java:234-235 | exactly the requested ids that exist; unknown ids are skipped |
| ExpenseRepository.FindById | src/main/java/com/i2i/user_management/Service/Impl/ExpenseServiceImpl.java:401-402 | the first row with that id, deleted or not; none exactly when no row has it |
| ExpenseRepository.FindAllByRequestedBy | src/main/java/com/i2i/user_management/Repository/ExpenseRepository.java:21 | exactly the owner's undeleted rows |
| ExpenseRepository.FindAllByFilters | src/main/java/com/i2i/user_management/Repository/ExpenseRepository.java:33-40 | exactly the undeleted rows with the status (when given) dated within the bounds, a null bound being open |
| ExpenseRepository.NoFiltersKeepsAllLive | src/main/java/com/i2i/user_management/Repository/ExpenseRepository.java:33-40 | with no status and no bounds, a table of live rows comes back whole and in order |
| ExpenseRepository.CurrencySummaries | src/main/java/com/i2i/user_management/Repository/ExpenseRepository.java:56 | one summary per grouped row, with its currency and total and no INR amount yet |
| ExpenseRepository.CurrencyRowsFacts | src/main/java/com/i2i/user_management/Repository/ExpenseRepository.java:56-65 | the rows counted for a currency sum to that currency's approved total (zero outside the restriction); a currency appears exactly when it has a counted expense |
| ExpenseRepository.ReportTotalOfSummaries | src/main/java/com/i2i/user_management/Repository/ExpenseRepository.java:56 | turning groups into summaries keeps the overall total |
| ExpenseRepository.CurrencyGroupsExact | src/main/java/com/i2i/user_management/Repository/ExpenseRepository.java:56-65 | no currency occurs twice among the groups, each group carries its currency's total, and only the requested currency appears |
| ExpenseRepository.CurrencyGroupsComplete | src/main/java/com/i2i/user_management/Repository/ExpenseRepository.java:56-65 | every currency with a counted expense has its group |
| ExpenseRepository.TotalByCurrencyCorrect | src/main/java/com/i2i/user_management/Repository/ExpenseRepository.java:56-65 | `totalByCurrency` is exact: distinct currencies, each the sum of its approved, live, in-range expenses, only the requested one, and none missing |
| ExpenseRepository.GroupByCurrencyAddsUp | src/main/java/com/i2i/user_management/Repository/ExpenseRepository.java:67-74 | `groupByCurrency` is `totalByCurrency` without restriction, and its totals add up to the total of all counted expenses |
| ExpenseRepository.SqlFullName | src/main/java/com/i2i/user_management/Repository/ExpenseRepository.java:44 | SQL `CONCAT(first, ' ', last)`: null when either part is null, else the two parts with one space |
| ExpenseRepository.EmployeeSummaries | src/main/java/com/i2i/user_management/Repository/ExpenseRepository.java:42-46 | one summary per group, carrying employee code, SQL full name, currency and total |
| ExpenseRepository.EmployeeRowsFacts | src/main/java/com/i2i/user_management/Repository/ExpenseRepository.java:42-53 | the rows of a group key sum to that key's approved total; a key appears exactly when some counted expense produces it |
| ExpenseRepository.TotalApprovedPerEmployeeCorrect | src/main/java/com/i2i/user_management/Repository/ExpenseRepository.java:42-53 | `totalApprovedPerEmployee` is exact: no group twice, each row the sum over that employee's approved expenses in that currency, every counted expense represented |
| Aggregate.GroupSumCorrect | src/main/java/com/i2i/user_management/Repository/ExpenseRepository.java:42-74 | `GROUP BY ... SUM` is exact: the keys are those of the input, none twice, each row carrying its key's sum, and the totals add up to the input's |
| ExpenseMapper.ToDto | src/main/java/com/i2i/user_management/Mapper/ExpenseMapper.java:25-41 | null maps to null; own columns are copied; the status text parses back to the row's status; requestedBy is the requester's first name followed directly by the last name, a missing part printing "null"; an approver name is present exactly when an approver is, and is the approver's names joined the same way; no INR amount |
| ExpenseMapper.NamesJoinedWithoutSeparator | src/main/java/com/i2i/user_management/Mapper/ExpenseMapper.java:35-40 | requester names are joined with no separator and a null part prints "null" ("AnnLee", "Annnull") |
| ExpenseMapper.DeletedFlagHidden | src/main/java/com/i2i/user_management/Mapper/ExpenseMapper.java:25-41 | the soft-delete flag never reaches the response |
| UserMapper.ToDto | src/main/java/com/i2i/user_management/Mapper/UserMapper.java:25-50 | null maps to null; identity, names, e-mail, address, department, project and employee code are copied; role ids are present exactly when the role set is, holding exactly the user's role ids |
| UserMapper.BodyShowsExactlyVisibleFields | src/main/java/com/i2i/user_management/Mapper/UserMapper.java:25-50 | two users give the same body if and only if they agree on the visible fields |
| UserMapper.SecretsHidden | src/main/java/com/i2i/user_management/Mapper/UserMapper.java:25-50 | password, flags and lockout counters never change the body |
| RoleMapper.ToDto | src/main/java/com/i2i/user_management/Mapper/RoleMapper.java:22-32 | null maps to null; id, name and description copied; user ids left unset |
| RoleMapper.ToEntityAsWritten | src/main/java/com/i2i/user_management/Mapper/RoleMapper.java:40-49 | null maps to null; name and description copied, no id, and a null deleted flag (the builder ignores the field's initial value) |
| RoleMapper.BuiltRoleInvisible | src/main/java/com/i2i/user_management/Mapper/RoleMapper.java:45-48 | a role built as written and stored is invisible to `findActiveById`, `findAllActive` and `findActiveByName` |
| RoleMapper.ToEntity | src/main/java/com/i2i/user_management/Mapper/RoleMapper.java:40-49 | corrected mapping: as written, but the new role is active |
| RoleMapper.BuiltRoleVisible | src/main/java/com/i2i/user_management/Model/Role.java:28 | a role built by the corrected mapping and stored is found by id and listed as active |
| RoleMapper.RoundTripKeepsNameAndDescription | src/main/java/com/i2i/user_management/Mapper/RoleMapper.java:22-49 | `toDto(toEntity(d))` keeps name and description and has no id; the correction changes nothing the body shows |
| Validation.IndexOf | src/main/java/com/i2i/user_management/Dto/RegisterDto.java:12-13 | the first position of the character, or none when it is absent |
| Validation.LastIndexOf | src/main/java/com/i2i/user_management/Dto/RegisterDto.java:12-13 | the last position of the character, or none when it is absent |
| Validation.ValidEmailIffShape | src/main/java/com/i2i/user_management/Dto/RegisterDto.java:12-13 | the executable e-mail check accepts exactly the strings of the regular expression's shape (local part, '@', domain, '.', two or more lower-case letters) |
| Validation.ValidEmailHasShape | src/main/java/com/i2i/user_management/Dto/UserDto.java:15-20 | every accepted e-mail has the pattern's shape |
| Validation.ShapeIsValidEmail | src/main/java/com/i2i/user_management/Dto/UserDto.java:15-20 | every string of the pattern's shape is accepted |
| Validation.PasswordLengthBounds | src/main/java/com/i2i/user_management/Dto/RegisterDto.java:20-21 | fewer than 8 or more than 20 characters never pass; tripling a valid password fails |
| Validation.PasswordExamples | src/main/java/com/i2i/user_management/Dto/ResetPasswordDto.java:22-23 | a password with all four character classes passes; one without an upper-case letter fails |
| Validation.NotFutureDate | src/main/java/com/i2i/user_management/annotation/NotFutureDateValidator.java:10-24 | valid exactly for null or a day up to today, with no violation then and exactly one otherwise |
| Validation.TodayIsNotFuture | src/main/java/com/i2i/user_management/annotation/NotFutureDateValidator.java:10-24 | today is accepted and tomorrow refused |
| Validation.Required | src/main/java/com/i2i/user_management/Dto/ExpenseRequestDto.java:17-35 | `@NotNull` fails exactly on null, with one "must not be null" error on that field |
| Validation.RequiredText | src/main/java/com/i2i/user_management/Dto/RegisterDto.java:27-45 | `@NotNull @NotBlank` passes exactly for a value that `trim` does not empty; a null value breaks both constraints, a blank one only `@NotBlank`; errors name that field |
| Validation.BlankIsTrimBlank | src/main/java/com/i2i/user_management/Dto/RegisterDto.java:27-45 | whatever `isBlank` calls blank `@NotBlank` refuses too, but not the reverse: U+0001 is trimmed away without being white space |
| Validation.Matching | src/main/java/com/i2i/user_management/Dto/RegisterDto.java:11-25 | `@Pattern` passes null and a matching value and nothing else |
| Validation.ExpenseRequestErrors | src/main/java/com/i2i/user_management/Dto/ExpenseRequestDto.java:17-35 | an expense body is accepted exactly when all six fields are present and the date is not after today; every error names one of those fields |
| Validation.AmountSignNotChecked | src/main/java/com/i2i/user_management/Dto/ExpenseRequestDto.java:28-29 | a negative amount passes bean validation |
| Validation.RegisterErrors | src/main/java/com/i2i/user_management/Dto/RegisterDto.java:11-45 | a registration body is accepted exactly when e-mail and password are present and match their patterns and the five name and place fields have text |
| Validation.PasswordRequestErrors | src/main/java/com/i2i/user_management/Dto/ResetPasswordDto.java:18-30 | a password body is accepted exactly when all three fields are present and the new one matches the pattern; equality is not checked here |
| Validation.UserRequestErrors | src/main/java/com/i2i/user_management/Dto/UserDto.java:13-39 | a user body is accepted exactly when the e-mail is present and well-formed and role list, names, department and project are present |
| Validation.UserRequestFreeFields | src/main/java/com/i2i/user_management/Dto/UserDto.java:13-39 | id, address and employee code carry no constraint |
| Validation.EmptyRoleListAccepted | src/main/java/com/i2i/user_management/Dto/UserDto.java:22-23 | an empty role list passes `@NotNull` |
| Validation.RequestedNonNull | src/main/java/com/i2i/user_management/util/ValidationUtils.java:21-26 | returns its argument unchanged exactly when non-null; null is a BadRequest with the fixed message |
| Jwt.ParseClaims | src/main/java/com/i2i/user_management/Service/Impl/JwtService.java:144-157 | parsing succeeds exactly for a token that verifies and has not expired, yielding its claims |
| Jwt.ExtractUsername | src/main/java/com/i2i/user_management/Service/Impl/JwtService.java:76-89 | the subject of a non-blank, verifying, unexpired token; an error otherwise |
| Jwt.GetTokenExpiry | src/main/java/com/i2i/user_management/Service/Impl/JwtService.java:124-136 | the expiration of a token that parses; an error otherwise |
| Jwt.IssueClaims | src/main/java/com/i2i/user_management/Service/Impl/JwtService.java:55-58 | subject is the e-mail and the lifetime is the configured minutes |
| Jwt.IssuedTokenLifetime | src/main/java/com/i2i/user_management/Service/Impl/JwtService.java:45-116 | a token issued at t is valid exactly before t plus the validity |
| Jwt.ValidTokenParses | src/main/java/com/i2i/user_management/Service/Impl/JwtService.java:97-136 | a valid token yields its subject and a future expiry |
| Jwt.BearerToken | src/main/java/com/i2i/user_management/Jwt/JwtAuthenticationFilter.java:56-62 | a token exactly when the header starts with "Bearer "; the header is the prefix followed by the token |
| Jwt.BearerRoundTrip | src/main/java/com/i2i/user_management/Jwt/JwtAuthenticationFilter.java:56-62 | the token read from "Bearer " + t is t |
| JwtFilter.LoadUserByUsername | src/main/java/com/i2i/user_management/Service/Impl/UserServiceImpl.java:370-389 | a user exactly when the name is not blank and one active user has that e-mail, and then that user |
| JwtFilter.Decide | src/main/java/com/i2i/user_management/Jwt/JwtAuthenticationFilter.java:50-108 | a request is signed in exactly when nobody is yet, the bearer token is non-blank, not blacklisted and valid, its subject is one active user and that user's authorities are readable; the principal is that user with those authorities; the early returns are exactly the missing, blank, blacklisted and subject-less cases |
| JwtFilter.BlacklistedNeverAuthenticates | src/main/java/com/i2i/user_management/Jwt/JwtAuthenticationFilter.java:71-75 | a blacklisted token returns early and installs nothing, however valid it is |
| JwtFilter.ExistingAuthenticationKept | src/main/java/com/i2i/user_management/Jwt/JwtAuthenticationFilter.java:84-86 | an authentication already present is never replaced |
| JwtFilter.ExpiredTokenAnonymous | src/main/java/com/i2i/user_management/Jwt/JwtAuthenticationFilter.java:84-102 | an expired token signs nobody in |
| JwtFilter.RequestContext.constructor | src/main/java/com/i2i/user_management/Jwt/JwtAuthenticationFilter.java:50 | the context starts with the existing authentication and no chain call |
| JwtFilter.RequestContext.InvokeChain | src/main/java/com/i2i/user_management/Jwt/JwtAuthenticationFilter.java:107 | one more chain call; the authentication is untouched |
| JwtFilter.DoFilterInternal | src/main/java/com/i2i/user_management/Jwt/JwtAuthenticationFilter.java:50-108 | the context's authentication becomes `Decide`'s, or stays; the chain runs once, or twice when an early return's chain call throws; the filter never raises an error of its own |
| AuthService.WholeHours | src/main/java/com/i2i/user_management/Service/Impl/AuthServiceImpl.java:160-161 | `Duration.toHours` truncates: at least one hour exactly from 3600 seconds on |
| AuthService.RecordFailure | src/main/java/com/i2i/user_management/Service/Impl/AuthServiceImpl.java:157-174 | the count restarts at one after a quiet hour or with no earlier failure, else grows by one; the instant is recorded; five or more locks for a day; only lockout fields change |
| AuthService.ResetFailures | src/main/java/com/i2i/user_management/Service/Impl/AuthServiceImpl.java:176-184 | with failures counted, all three fields are cleared; otherwise the user is unchanged |
| AuthService.Attempt | src/main/java/com/i2i/user_management/Service/Impl/AuthServiceImpl.java:72-88 | locked exactly while the lock is ahead, and then nothing changes; authenticated exactly when unlocked with the right password; a wrong password records the failure |
| AuthService.AttemptKeepsConsistent | src/main/java/com/i2i/user_management/Service/Impl/AuthServiceImpl.java:139-184 | with a clock that does not run backwards, every attempt preserves the lockout invariant (count non-negative, zero exactly without a failure instant, lock at most a day after the last failure) |
| AuthService.FreshAccountConsistent | src/main/java/com/i2i/user_management/Model/User.java:32-62 | a new account satisfies the invariant and is never locked |
| AuthService.SuccessClearsLockout | src/main/java/com/i2i/user_management/Service/Impl/AuthServiceImpl.java:88 | a successful login leaves no count, no failure instant and no lock |
| AuthService.LockedRefusesEveryPassword | src/main/java/com/i2i/user_management/Service/Impl/AuthServiceImpl.java:139-155 | while locked the right and the wrong password get the same refusal and change nothing |
| AuthService.WindowReset | src/main/java/com/i2i/user_management/Service/Impl/AuthServiceImpl.java:160-166 | a failure an hour or more after the last counts as the first and does not lock |
| AuthService.LockLastsOneDay | src/main/java/com/i2i/user_management/Service/Impl/AuthServiceImpl.java:168-171 | a lock set at t holds exactly until t plus one day |
| AuthService.ReplayProgress | src/main/java/com/i2i/user_management/Service/Impl/AuthServiceImpl.java:157-174 | after k failures less than an hour apart the count is at least k, or the account is already locked past the series |
| AuthService.FiveFailuresLock | src/main/java/com/i2i/user_management/Service/Impl/AuthServiceImpl.java:157-174 | five failures, each less than an hour after the previous, lock the account and the next attempt is refused whatever the password |
| AuthService.LockedMessage | src/main/java/com/i2i/user_management/Service/Impl/AuthServiceImpl.java:144-150 | the refusal names the formatted lock instant |
| AuthService.Login | src/main/java/com/i2i/user_management/Service/Impl/AuthServiceImpl.java:62-105 | null fields are refused; an unknown or inactive e-mail is not found; otherwise the user row becomes the attempt's result and the answer is the lock message, "Invalid email or password", or the token with the user's summary |
| AuthService.DisabledBranchUnreachable | src/main/java/com/i2i/user_management/Service/Impl/AuthServiceImpl.java:90-92 | the login finder only returns enabled users, so the disabled-account branch cannot be taken |
| AuthService.Revoke | src/main/java/com/i2i/user_management/Service/Impl/AuthServiceImpl.java:128-134 | afterwards the token is blacklisted, existing records are kept as they were, and a new record carries the token's own expiry |
| AuthService.RevokeIdempotent | src/main/java/com/i2i/user_management/Service/Impl/AuthServiceImpl.java:128-131 | logging out twice with a token leaves the blacklist as once |
| AuthService.Logout | src/main/java/com/i2i/user_management/Service/Impl/AuthServiceImpl.java:116-137 | a blank token is a validation error and an invalid one an authentication failure; it succeeds exactly for a valid token, which is then revoked with its expiry; on failure the blacklist is unchanged |
| AuthController.Logout | src/main/java/com/i2i/user_management/Controller/AuthController.java:58-70 | a missing or non-Bearer header gets 400 "Missing token"; a blank token 400; an invalid one 401; 200 exactly for a valid token, which is then revoked |
| AuthController.LoggedOutHeaderRefused | src/main/java/com/i2i/user_management/Controller/AuthController.java:58-70 | after logout the same header never signs a request in through the filter |
| EmployeeCode.ParseInt | src/main/java/com/i2i/user_management/Service/Impl/UserServiceImpl.java:442 | `Integer.parseInt` reads a digit string as its value and fails on the empty string |
| EmployeeCode.Pad4 | src/main/java/com/i2i/user_management/Service/Impl/UserServiceImpl.java:445 | `%04d` is at least four characters, exactly four below 10000, all digits for a non-negative number |
| EmployeeCode.ParsePad4 | src/main/java/com/i2i/user_management/Service/Impl/UserServiceImpl.java:442-445 | parsing the padded text gives the number back, for -999 to 9999 |
| EmployeeCode.Pad4Ordered | src/main/java/com/i2i/user_management/Repository/UserRepository.java:36-37 | among four-digit paddings, string order is numeric order |
| EmployeeCode.LexTotal | src/main/java/com/i2i/user_management/Repository/UserRepository.java:36-37 | the string order of `ORDER BY ... DESC` is total and asymmetric |
| EmployeeCode.LexTransitive | src/main/java/com/i2i/user_management/Repository/UserRepository.java:36-37 | the string order is transitive |
| EmployeeCode.YearPrefix | src/main/java/com/i2i/user_management/Service/Impl/UserServiceImpl.java:446 | the prefix is "i2i" followed by the year |
| EmployeeCode.CodesWithPrefix | src/main/java/com/i2i/user_management/Repository/UserRepository.java:36 | exactly the employee codes held by users that start with the prefix |
| EmployeeCode.FindLastEmployeeCodeForYear | src/main/java/com/i2i/user_management/Repository/UserRepository.java:36-37 | none exactly when the year has no code, otherwise the greatest of the year's codes in string order |
| EmployeeCode.NextEmployeeCode | src/main/java/com/i2i/user_management/Service/Impl/UserServiceImpl.java:438-446 | "0001" after the prefix when there is no code yet; the only failure is the number-format exception; a last code ending in four digits always yields a code with the prefix |
| EmployeeCode.NextFollows | src/main/java/com/i2i/user_management/Service/Impl/UserServiceImpl.java:438-446 | after prefix + n comes prefix + (n+1), later in string order, for n up to 9998 |
| EmployeeCode.NextIsFreshBelow9999 | src/main/java/com/i2i/user_management/Service/Impl/UserServiceImpl.java:427-446 | while the greatest code ends below 9999, the next code is held by no user |
| EmployeeCode.GenerateEmployeeCode | src/main/java/com/i2i/user_management/Service/Impl/UserServiceImpl.java:427-446 | the generator as written: the successor of the year's greatest code in string order |
| EmployeeCode.CodeRepeatsAfter9999 | src/main/java/com/i2i/user_management/Service/Impl/UserServiceImpl.java:438-446 | with prefix+"9999" and prefix+"10000" issued, the greatest code is still prefix+"9999", so prefix+"10000" is generated again |
| EmployeeCode.NumericSuffix | src/main/java/com/i2i/user_management/Service/Impl/UserServiceImpl.java:441-442 | the number after the prefix, present only when the rest is all digits |
| EmployeeCode.MaxSuffix | src/main/java/com/i2i/user_management/Service/Impl/UserServiceImpl.java:440-442 | an upper bound of every numeric suffix among the codes, and attained unless zero |
| EmployeeCode.PaddedCodeSuffix | src/main/java/com/i2i/user_management/Service/Impl/UserServiceImpl.java:445-446 | the suffix of prefix + `%04d` of n is n |
| EmployeeCode.FreshEmployeeCode | src/main/java/com/i2i/user_management/Service/Impl/UserServiceImpl.java:427-446 | the corrected code starts with the year's prefix, is prefix+"0001" for the year's first user, and is held by no user |
| EmployeeCode.NextCodeUnused | src/main/java/com/i2i/user_management/Service/Impl/UserServiceImpl.java:438-446 | the code one past the greatest number under the prefix is held by no user |
| EmployeeCode.GenerateFreshEmployeeCode | src/main/java/com/i2i/user_management/Service/Impl/UserServiceImpl.java:427-446 | one scan over the year's codes computes exactly the corrected code |
| EmployeeCode.GreatestSuffix | src/main/java/com/i2i/user_management/Service/Impl/UserServiceImpl.java:439-442 | the scan finds the greatest number after the prefix among the codes, 0 when none carries one |
| UserService.FirstUnusable | src/main/java/com/i2i/user_management/Service/Impl/UserServiceImpl.java:92-99 | the first requested, existing role that is not active, or none exactly when all existing requested roles are active |
| UserService.DefaultRole | src/main/java/com/i2i/user_management/Service/Impl/UserServiceImpl.java:102-103 | the EMPLOYEE role by name, deleted or not; a missing one is a role-assignment failure, two a database failure |
| UserService.InitialRoles | src/main/java/com/i2i/user_management/Service/Impl/UserServiceImpl.java:92-106 | with ids: exactly the existing requested roles, succeeding exactly when all are active; a deleted one is a role-assignment failure and a null flag a database failure. Without ids: the default role alone |
| UserService.RequestedRolesActive | src/main/java/com/i2i/user_management/Service/Impl/UserServiceImpl.java:92-99 | requested ids never hand out a deleted role |
| UserService.DeletedDefaultRoleStillAssigned | src/main/java/com/i2i/user_management/Service/Impl/UserServiceImpl.java:102-105 | a deleted EMPLOYEE role is still given to new users |
| UserService.CreatedUser | src/main/java/com/i2i/user_management/Service/Impl/UserServiceImpl.java:80-90 | the new user has the body's e-mail, the code as employee id and, encoded, as password; it is live with the given roles and no address |
| UserService.Creation | src/main/java/com/i2i/user_management/Service/Impl/UserServiceImpl.java:67-119 | a null body or blank e-mail is refused; a failing code generator is the save failure; otherwise it succeeds exactly when the initial roles resolve and fails with their error; the user is live, holds the code the generator as written gives, with the code encoded as password, and has the body's fields |
| UserService.SaveUser | src/main/java/com/i2i/user_management/Service/Impl/UserServiceImpl.java:67-119 | on success exactly one new row is added and its body returned; on failure nothing is saved |
| UserService.SavedCodeRepeats | src/main/java/com/i2i/user_management/Service/Impl/UserServiceImpl.java:78-109 | with the year's codes prefix+"9999" and prefix+"10000", a successful save stores prefix+"10000", a code a user already holds |
| UserService.RegisteredUser | src/main/java/com/i2i/user_management/Service/Impl/UserServiceImpl.java:329-346 | the registered user has the body's fields, address included, the encoded password, the code, and only the default role |
| UserService.Registration | src/main/java/com/i2i/user_management/Service/Impl/UserServiceImpl.java:317-359 | a null body or e-mail is refused; an e-mail held by an active user is a registration error; a failing code generator is the registration failure; it succeeds exactly when the e-mail is free, a password is given, the generator succeeds and the default role is found; the user is live, with the generator's code and the EMPLOYEE role |
| UserService.RegisterUser | src/main/java/com/i2i/user_management/Service/Impl/UserServiceImpl.java:317-359 | on success exactly one new row is added and its body returned; on failure nothing is saved |
| UserService.RegisteredEmailTaken | src/main/java/com/i2i/user_management/Service/Impl/UserServiceImpl.java:325-327 | after a registration the e-mail is found for the new user, so registering it again is refused |
| UserService.IfGiven | src/main/java/com/i2i/user_management/Service/Impl/UserServiceImpl.java:222-226 | a given value replaces the old one; a null one keeps it |
| UserService.Edited | src/main/java/com/i2i/user_management/Service/Impl/UserServiceImpl.java:222-226 | the five profile fields take their given values and every other field is unchanged |
| UserService.EditIdempotent | src/main/java/com/i2i/user_management/Service/Impl/UserServiceImpl.java:222-226 | an edit applied twice is applied once; an empty edit changes nothing |
| UserService.EditUser | src/main/java/com/i2i/user_management/Service/Impl/UserServiceImpl.java:212-237 | a null id or body is refused and an inactive user is not found; it succeeds exactly for an active user, whose row becomes the edited one |
| UserService.ChangePasswordForLoggedInUser | src/main/java/com/i2i/user_management/Service/Impl/UserServiceImpl.java:284-303 | null passwords are refused and an unknown signed-in user is not found; it succeeds exactly when the old password matches, and then only the password changes, to the encoded new one |
| UserService.ResetPasswordByAdmin | src/main/java/com/i2i/user_management/Service/Impl/UserServiceImpl.java:402-424 | a null id or blank password is refused and an inactive user is not found; it succeeds exactly for an active user, whose password alone becomes the encoded new one |
| UserService.PasswordChangeHidden | src/main/java/com/i2i/user_management/Service/Impl/UserServiceImpl.java:284-303 | the stored hash accepts the new password, and the body does not change |
| UserService.DeleteUserById | src/main/java/com/i2i/user_management/Service/Impl/UserServiceImpl.java:250-270 | a null id is refused and an inactive user is not found; it succeeds exactly for an active user, who then is no longer found |
| UserService.DeletedUserHidden | src/main/java/com/i2i/user_management/Repository/UserRepository.java:20-31 | a deleted user is found neither by id nor by e-mail nor in the active list |
| UserController.CreateUser | src/main/java/com/i2i/user_management/Controller/UserController.java:47-55 | a null body or blank e-mail is refused before the service; otherwise the outcome and new state are `saveUser`'s |
| UserController.ValidEmailNotBlank | src/main/java/com/i2i/user_management/Dto/UserDto.java:15-20 | a well-formed e-mail is not blank |
| UserController.ValidatedUserBodyPassesGuard | src/main/java/com/i2i/user_management/Controller/UserController.java:48-50 | a body that passed its constraints always passes the controller's null/blank guard |
| UserController.GetUserByEmail | src/main/java/com/i2i/user_management/Controller/UserController.java:109-116 | a blank e-mail is refused; no active user is not found; two are a database failure; otherwise the body of the active user with that e-mail |
| UserController.ChangePassword | src/main/java/com/i2i/user_management/Controller/UserController.java:143-157 | null fields are refused; an unequal confirmation is a bad request before the service; it succeeds exactly when the old password matches for the signed-in active user, and then only that password changes |
| UserController.ResetPassword | src/main/java/com/i2i/user_management/Controller/UserController.java:166-172 | a null body or confirmation throws; an unequal confirmation is a bad request; it succeeds exactly for a non-blank password and an active user, whose password alone changes |
| UserController.ValidatedPasswordBodyPassesNullGuards | src/main/java/com/i2i/user_management/Dto/ResetPasswordDto.java:18-30 | a body that passed its constraints has all three fields and a non-blank new password |
| RoleService.SaveRole | src/main/java/com/i2i/user_management/Service/Impl/RoleServiceImpl.java:52-71 | fails exactly on a null body or blank name; otherwise the one new role is stored with a null deleted flag, so the active finders do not find it |
| RoleService.FindRoleById | src/main/java/com/i2i/user_management/Service/Impl/RoleServiceImpl.java:102-120 | a null id is refused; succeeds exactly for an active role, giving its body; otherwise "Role not found with id" |
| RoleService.FindRoleByName | src/main/java/com/i2i/user_management/Service/Impl/RoleServiceImpl.java:130-149 | a blank name is refused; succeeds exactly when one active role has the name; none is not found and two a database failure |
| RoleService.EditRole | src/main/java/com/i2i/user_management/Service/Impl/RoleServiceImpl.java:160-183 | null id or body is refused; succeeds exactly for an active role, whose name and description become the body's (null included) and nothing else changes |
| RoleService.NamelessRoleBlocksHolders | src/main/java/com/i2i/user_management/Service/Impl/RoleServiceImpl.java:167-173 | after an edit clears a role's name, no holder's authorities can be read |
| RoleService.DeleteRoleById | src/main/java/com/i2i/user_management/Service/Impl/RoleServiceImpl.java:193-212 | a null id is refused; succeeds exactly for an active role, which alone is flagged deleted |
| RoleService.DeletedRoleNotFound | src/main/java/com/i2i/user_management/Service/Impl/RoleServiceImpl.java:102-120 | a deleted role is not found by id, not listed, not found by the active finder |
| RoleService.ActiveAmong | src/main/java/com/i2i/user_management/Service/Impl/RoleServiceImpl.java:242-248 | exactly the fetched roles whose flag is false |
| RoleService.Assignment | src/main/java/com/i2i/user_management/Service/Impl/RoleServiceImpl.java:223-260 | refusals in the source's order; succeeds exactly for an active user, no null flag among the fetched roles, and some requested active role; the new role set is exactly the requested, existing, active roles |
| RoleService.AssignmentRefusals | src/main/java/com/i2i/user_management/Service/Impl/RoleServiceImpl.java:237-251 | no existing role gives "No valid roles found ..."; only deleted ones give "All provided roles are deleted" |
| RoleService.AssignRolesToUser | src/main/java/com/i2i/user_management/Service/Impl/RoleServiceImpl.java:223-260 | on success only the user's role set changes, to the assignment; on failure nothing is saved |
| SecurityConfig.AccessFor | src/main/java/com/i2i/user_management/Config/SecurityConfig.java:73-90 | the first matching rule decides; no match needs only authentication |
| SecurityConfig.Authorize | src/main/java/com/i2i/user_management/Config/SecurityConfig.java:73-125 | permit-all allows everyone; otherwise anonymous gets 401; signed-in requests are allowed exactly when they hold the authority (or one of them), else 403 "Access Denied!" |
| SecurityConfig.LiteralPattern | src/main/java/com/i2i/user_management/Config/SecurityConfig.java:74 | a literal two-segment pattern matches exactly its own path |
| SecurityConfig.PublicRuleExactly | src/main/java/com/i2i/user_management/Config/SecurityConfig.java:74 | exactly register, login and logout match the public rule |
| SecurityConfig.PublicEndpoints | src/main/java/com/i2i/user_management/Config/SecurityConfig.java:74 | the three public paths are allowed, signed in or not |
| SecurityConfig.AnonymousNeedsAuthentication | src/main/java/com/i2i/user_management/Config/SecurityConfig.java:108-111 | every other path turns an anonymous request away with 401 |
| SecurityConfig.ExpenseListingFinanceOnly | src/main/java/com/i2i/user_management/Config/SecurityConfig.java:82-84 | `/expenses/all` is allowed exactly with FINANCE_ADMIN |
| SecurityConfig.OwnExpensesAnyRole | src/main/java/com/i2i/user_management/Config/SecurityConfig.java:85-89 | `/expenses/{id}` is allowed exactly with any of the three roles |
| SecurityConfig.ChangePasswordShadowed | src/main/java/com/i2i/user_management/Config/SecurityConfig.java:78-86 | as declared, `/users/change-password` is allowed exactly with SUPER_ADMIN; an EMPLOYEE gets 403 |
| SecurityConfig.CorrectedChangePassword | src/main/java/com/i2i/user_management/Config/SecurityConfig.java:85-89 | with the rule moved ahead, any of the three roles may change its password |
| SecurityConfig.InsertNonMatching | src/main/java/com/i2i/user_management/Config/SecurityConfig.java:73-90 | inserting a rule that does not match a path leaves that path's access unchanged |
| SecurityConfig.CorrectionOnlyAffectsChangePassword | src/main/java/com/i2i/user_management/Config/SecurityConfig.java:73-90 | the corrected table decides every other path as the declared one |
| ExceptionHandler.Handle | src/main/java/com/i2i/user_management/Exception/GlobalExceptionHandler.java:29-83 | a class with its own handler gets that handler's status and its own message; any other gets 500 with the generic text |
| ExceptionHandler.MostSpecificHandlerWins | src/main/java/com/i2i/user_management/Exception/GlobalExceptionHandler.java:29-76 | an ApplicationException subclass keeps its message and gets 500 only when it is ApplicationException itself |
| ExceptionHandler.UnhandledAreGeneric | src/main/java/com/i2i/user_management/Exception/GlobalExceptionHandler.java:78-83 | external-service, database, not-found and runtime failures reach the client as 500 with the generic text, never 503 |
| ExceptionHandler.ClientErrorsCarryMessage | src/main/java/com/i2i/user_management/Exception/GlobalExceptionHandler.java:29-69 | every answer below 500 carries the exception's own message, and only handled non-generic classes get one |
| ExceptionHandler.LastMessage | src/main/java/com/i2i/user_management/Exception/GlobalExceptionHandler.java:110-115 | none exactly when no error is on the field; otherwise a message some error on it carries |
| ExceptionHandler.FieldErrorMap | src/main/java/com/i2i/user_management/Exception/GlobalExceptionHandler.java:110-115 | one entry per field with an error, holding that field's last message |
| ExceptionHandler.UnreadableBody | src/main/java/com/i2i/user_management/Exception/GlobalExceptionHandler.java:117-138 | one "error" entry: month, day or format message for a date that did not parse, malformed JSON otherwise |
| ExceptionHandler.TypeMismatch | src/main/java/com/i2i/user_management/Exception/GlobalExceptionHandler.java:89-99 | 400 naming the parameter and the expected format |
| ExceptionHandler.NoHandlerFound | src/main/java/com/i2i/user_management/Exception/GlobalExceptionHandler.java:101-107 | 404 naming the unknown endpoint |
| ExpenseService.Codes | src/main/java/com/i2i/user_management/Service/Impl/ExpenseServiceImpl.java:246 | the codes of the list, in order |
| ExpenseService.Join | src/main/java/com/i2i/user_management/Service/Impl/ExpenseServiceImpl.java:252 | `String.join` of the codes: empty for no part, the part itself for one, otherwise starting with the first part and as long as all parts plus one separator between each two |
| ExpenseService.GetAllCurrencies | src/main/java/com/i2i/user_management/Service/Impl/ExpenseServiceImpl.java:268-286 | succeeds exactly for a non-empty list, unchanged; every failure is an external-service exception |
| ExpenseService.ValidateCurrencyCode | src/main/java/com/i2i/user_management/Service/Impl/ExpenseServiceImpl.java:238-257 | passes exactly when the code has text and its upper-case form is listed; blank is refused before fetching; list failures propagate |
| ExpenseService.CurrencyCheckIgnoresCase | src/main/java/com/i2i/user_management/Service/Impl/ExpenseServiceImpl.java:245-246 | the check does not depend on the code's case |
| ExpenseService.RateToInr | src/main/java/com/i2i/user_management/Integration/Client/Impl/ExchangeRateHostClientImpl.java:37-52 | a code spelling INR in any mix of cases converts at 1; any other code is quoted in upper case |
| ExpenseService.IsInrIgnoringCase | src/main/java/com/i2i/user_management/Integration/Client/Impl/ExchangeRateHostClientImpl.java:38 | the letter-by-letter INR test holds exactly when equalsIgnoreCase against "INR" does |
| ExpenseService.RateToInrCases | src/main/java/com/i2i/user_management/Integration/Client/Impl/ExchangeRateHostClientImpl.java:37-52 | in equalsIgnoreCase terms: INR is 1, any other code is quoted in upper case |
| ExpenseService.RateIgnoresCase | src/main/java/com/i2i/user_management/Integration/Client/Impl/ExchangeRateHostClientImpl.java:38-46 | the rate does not depend on the code's case |
| ExpenseService.WithInr | src/main/java/com/i2i/user_management/Service/Impl/ExpenseServiceImpl.java:103-106 | the response is the mapped row with amount times rate as its INR amount |
| ExpenseService.Submission | src/main/java/com/i2i/user_management/Service/Impl/ExpenseServiceImpl.java:72-120 | a stored row is a new PENDING, undeleted expense of the submitter with a positive amount and upper-case currency; a valid request by a known user with a quotable currency always succeeds; each check fails with the source's exception in the source's order: missing e-mail, unknown user, duplicate user and missing amount (generic error), non-positive amount, missing date, the currency check's own error, missing title or receipt URL (generic error), the rate error naming the upper-cased code, and the column width (generic error) |
| ExpenseService.SubmitExpense | src/main/java/com/i2i/user_management/Service/Impl/ExpenseServiceImpl.java:72-120 | the row is appended exactly on success and shown with its INR amount; on failure nothing changes |
| ExpenseService.ValidateUpdateRequest | src/main/java/com/i2i/user_management/Service/Impl/ExpenseServiceImpl.java:212-228 | passes exactly for an undeleted PENDING expense of the caller (e-mail ignoring case) with a positive amount and a date; deleted, settled and foreign expenses, a missing or non-positive amount and a missing date get their messages in that order |
| ExpenseService.Updated | src/main/java/com/i2i/user_management/Service/Impl/ExpenseServiceImpl.java:177-183 | the six request fields replace the old ones (currency upper-cased); id, status, requester, approver, reason and flag are kept |
| ExpenseService.UpdateCheck | src/main/java/com/i2i/user_management/Service/Impl/ExpenseServiceImpl.java:170-199 | passes exactly when the request checks, the currency check, a present title and receipt URL and the column width all pass; a request-check or currency failure is reported as is, and a missing title, a missing receipt URL or a too-wide currency gets its own runtime error |
| ExpenseService.UpdateExpense | src/main/java/com/i2i/user_management/Service/Impl/ExpenseServiceImpl.java:170-199 | an unknown id is not found; a failed check changes nothing; otherwise the row is replaced by the updated one even when the later rate lookup fails |
| ExpenseService.DeleteExpense | src/main/java/com/i2i/user_management/Service/Impl/ExpenseServiceImpl.java:298-317 | null id, unknown, deleted and non-PENDING expenses are refused with their messages; otherwise only that expense is soft-deleted |
| ExpenseService.DeletedExpenseHidden | src/main/java/com/i2i/user_management/Repository/ExpenseRepository.java:21-40 | a soft-deleted expense is in neither the owner's listing nor the administrator's |
| ExpenseService.WithInrAmounts | src/main/java/com/i2i/user_management/Service/Impl/ExpenseServiceImpl.java:345-355 | succeeds exactly when every row's rate is available, mapping each row in order; otherwise the first unavailable rate's error |
| ExpenseService.GetExpensesForCurrentUser | src/main/java/com/i2i/user_management/Service/Impl/ExpenseServiceImpl.java:131-154 | missing e-mail is a bad request, an unknown user not found, a duplicated e-mail the generic failure; for the one user, it succeeds exactly when every row's rate is available, giving the caller's own undeleted expenses in order, each with its INR amount; otherwise the error names the first row whose rate is missing |
| ExpenseService.ParseStatusFilter | src/main/java/com/i2i/user_management/Service/Impl/ExpenseServiceImpl.java:332-339 | blank means no filter; otherwise the constant whose name is the upper-cased text, or a bad request naming the text |
| ExpenseService.StatusFilterRoundTrip | src/main/java/com/i2i/user_management/Service/Impl/ExpenseServiceImpl.java:332-339 | each constant's name in any case selects that constant |
| ExpenseService.GetExpensesForAdmin | src/main/java/com/i2i/user_management/Service/Impl/ExpenseServiceImpl.java:331-360 | an invalid status is refused; otherwise the matching undeleted expenses in order with INR amounts, succeeding exactly when every rate is available; on failure the error is the external-service exception naming the currency of the first row without a rate |
| ExpenseService.GetExpenseById | src/main/java/com/i2i/user_management/Service/Impl/ExpenseServiceImpl.java:370-385 | an unknown id is not found; any row with the id, deleted or not, with its INR amount or the rate error |
| ExpenseService.Approval | src/main/java/com/i2i/user_management/Service/Impl/ExpenseServiceImpl.java:399-441 | unknown is not found and settled is a conflict; a success turns a PENDING expense into APPROVED exactly for an "approved" decision (else REJECTED with the reason), names the approver, who is not the requester, and changes nothing else; every failure is a not-found, a conflict or the generic approval error |
| ExpenseService.ApprovalOfPending | src/main/java/com/i2i/user_management/Service/Impl/ExpenseServiceImpl.java:408-434 | on a PENDING expense: a missing or duplicated approver e-mail is the generic approval error, an unknown approver is not found, acting on one's own expense is a conflict; otherwise it succeeds exactly for "approved" or "rejected" in any case, any other decision being the invalid-status conflict |
| ExpenseService.DecisionIsFinal | src/main/java/com/i2i/user_management/Service/Impl/ExpenseServiceImpl.java:404-406 | once decided, any further decision on the expense is a conflict |
| ExpenseService.DecidedRowConflicts | src/main/java/com/i2i/user_management/Service/Impl/ExpenseServiceImpl.java:401-406 | approving or rejecting an expense that is no longer PENDING is a conflict, whoever asks and whatever they send |
| ExpenseService.FindAfterReplace | src/main/java/com/i2i/user_management/Service/Impl/ExpenseServiceImpl.java:429-431 | saving the decided row keeps it where the finder looks |
| ExpenseService.ApproveOrRejectExpense | src/main/java/com/i2i/user_management/Service/Impl/ExpenseServiceImpl.java:399-441 | succeeds exactly when `Approval` does, replacing just that row; on failure nothing changes |
| ExpenseService.EmployeeInInr | src/main/java/com/i2i/user_management/Service/Impl/ExpenseServiceImpl.java:464-466 | the INR total is total times rate; nothing else changes |
| ExpenseService.CurrencyInInr | src/main/java/com/i2i/user_management/Service/Impl/ExpenseServiceImpl.java:506-508 | the INR total is total times rate; nothing else changes |
| ExpenseService.ReportTotalApprovedPerEmployee | src/main/java/com/i2i/user_management/Service/Impl/ExpenseServiceImpl.java:451-482 | succeeds exactly when every row's rate is available, giving the repository's rows in order with INR totals; otherwise the external-service exception naming the currency of the first row without a rate |
| ExpenseService.ReportTotalByCurrency | src/main/java/com/i2i/user_management/Service/Impl/ExpenseServiceImpl.java:493-519 | an invalid currency is refused before the query; otherwise the currency's rows with INR totals, succeeding exactly when every rate is available; on failure the error is the external-service exception naming the currency of the first row without a rate |
| ExpenseService.CurrencyRowsInInr | src/main/java/com/i2i/user_management/Service/Impl/ExpenseServiceImpl.java:503-518 | succeeds exactly when every row's rate is available, each row then carrying its total times the rate, in order; otherwise the error names the currency of the first row whose rate is missing |
| ExpenseService.CurrencyReportTotals | src/main/java/com/i2i/user_management/Service/Impl/ExpenseServiceImpl.java:493-519 | the report holds only the requested currency, never twice, and its total is the sum of that currency's approved undeleted expenses in range |

## Left out

- Signing, Base64 decoding and parsing of JWTs are not modelled. The tokens that verify are a map from text to claims.
- BCrypt and the authentication manager are not modelled. They are the `encode` and `matches` parameters.
- The exchange-rate HTTP client is not modelled. It is the `CurrencyFeed` list and the `quote` function. Its HTTP errors and response parsing are not modelled.
- The clock is a parameter (`now`, `year`, `today`), and so are the date formatter (`lockText`, `dateText`) and the identifiers the database generates (`newId`).
- Paging, logging, audit columns (`createdAt`, `updatedAt`, `deletedAt`) and concurrency are not modelled.
- `@Transactional` rollback is modelled only as "nothing changes on failure" for the transactional methods.
- The lockout fields (`failedAttempts`, `lastFailedAttempt`, `lockedUntil`) are read and written by the login service but are not declared in User.java. The model gives the user these three fields.
- `updateIfNotNull`, used by `editUser`, is not defined in ValidationUtils.java. The model reads it as "set the field when the value is non-null".
- `UserController.updateUser` passes a `UserDto` where the service expects a `UserUpdateDto`. The model takes the service's five profile fields.
- Role order is not modelled. Role ids, in the user and in `UserDto.roleIds`, are sets. `assignRolesToUser` refuses an empty list, not an empty set.
- Case and blank tests are ASCII-only: `Upper`, `EqualsIgnoreCase` and `IsWhitespace` know only the ASCII letters and whitespace. Java's `toUpperCase`, `equalsIgnoreCase` and `isBlank` also fold or skip other characters, such as the dotless i or U+2003. So a header "Bearer \u2003" is blank in Java but not in the model. The validators' `@NotBlank` is modelled by its own test, `trim` leaving nothing (`TrimBlank`), which does treat the control characters up to U+0020 as blank.
- String order is modelled as code-unit order. The database collation is not modelled, and `Integer.parseInt` is modelled on ASCII digits only.
- The text of a `NullPointerException` is not modelled. It is `RuntimeEx("NullPointerException")`, and it reaches the client only as the generic 500.
- `findUserById`, `findAllUsers` and `findAllRoles`: the finders behind them are modelled, but their service wrappers and the mapping of whole pages are not.
- `loadUserByUsername` is modelled only as the filter uses it.
- Bean validation is modelled as separate error functions for each body. Lemmas state which controller guards a validated body always passes.
- The controllers read the signed-in user's e-mail from the security context. This is the `currentEmail` parameter.
- The `year` parameter is the decimal year, as `String.valueOf(Year.now())` gives it.
- Repository calls are taken never to throw, except where the model says so: a duplicate row, a null role flag, and a currency wider than its column. So the `DatabaseException` each service method raises when the database itself fails, with the text specific to the operation, is not modelled. This covers RoleServiceImpl, UserServiceImpl and the two report queries of ExpenseServiceImpl.
- UserService.DeleteUserById: UserServiceImpl.java:261 calls `softDelete(userId, now)` with two arguments, but UserRepository.java:24-25 declares `softDelete(id, updatedAt, deletedBy)` with three. The model reads the call as the query of UserRepository.java:24 setting `isDeleted` to true on that user; the audit columns are not modelled.
- A database failure of the employee-code query is not modelled; the parse failure of the last code (`EmployeeCode.NextEmployeeCode`) is, and `saveUser` and `registerUser` turn it into their database failure.
- AuthService.Login: when two active users share the e-mail, it states only that the login fails and nothing changes, not which exception is thrown.
- AuthService.LockedMessage: states only that the message contains more than the formatted instant. The surrounding wording is in the body.
- ExpenseService.Join: states the empty and one-element cases of `String.join`, the result's length and its first part, but not where each later part and separator sit.
- ExceptionHandler.UnhandledAreGeneric: NotFoundException.java is not part of this model. `NotFoundEx` is taken to lie outside the ApplicationException hierarchy, so it reaches the client as the generic 500. If it extends ApplicationException, the client gets 500 with its own message instead.
- JwtFilter.DoFilterInternal: what happens downstream is a single boolean, "the rest of the chain throws".

## Findings

| source | as written | input that shows it | evidently intended | confidence | as-written member | corrected member |
|---|---|---|---|---|---|---|
| src/main/java/com/i2i/user_management/Config/SecurityConfig.java:78-86 | the SUPER_ADMIN rule lists `/users/*` before the any-role rule lists `/users/change-password`, and the first matching rule decides | a signed-in EMPLOYEE (or FINANCE_ADMIN) requesting `/users/change-password` gets 403 "Access Denied!" | every role may change its own password | not executed | SecurityConfig.ChangePasswordShadowed | SecurityConfig.CorrectedChangePassword |
| src/main/java/com/i2i/user_management/Service/Impl/UserServiceImpl.java:438-446 | the last code is the greatest in string order, and its last four characters plus one become the next number | with codes "i2i20259999" and "i2i202510000" already issued, the greatest in string order is "i2i20259999", so "i2i202510000" is generated a second time | one more than the greatest number of the year, compared as a number, never a code already held | not executed | EmployeeCode.CodeRepeatsAfter9999 | EmployeeCode.GenerateFreshEmployeeCode |
| src/main/java/com/i2i/user_management/Mapper/RoleMapper.java:45-48 | the builder sets only name and description, so `isDeleted` is null despite its initial value `false` in Role.java | `saveRole` with name "AUDITOR": the saved role is absent from `findActiveById`, `findActiveByName` and `findAllActive` | a new role starts out not deleted | not executed | RoleMapper.BuiltRoleInvisible | RoleMapper.BuiltRoleVisible |
