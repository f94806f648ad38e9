/**
 * The user service: creation by an administrator, self-registration,
 * profile edits, password changes and soft deletion. The password encoder
 * is the function `encode` and its check the function `matches`; the
 * current year is a parameter; the id of a new row is given by the caller,
 * as the database generates it.
 */
module UserService {
  import opened Base
  import opened Entities
  import opened UserRepository
  import RoleRepository
  import opened Validation
  import opened EmployeeCode
  import opened UserMapper
  import opened Store

  const DEFAULT_ROLE_MISSING: string := "Default USER role not found. Please seed roles."
  const SAVE_FAILURE: string := "Failed to save user due to database error"
  const REGISTER_FAILURE: string := "Failed to register user due to a database error"

  // ---------------------------------------------------------------- roles of a new user

  /**
   * The first requested id whose role exists and is not known to be
   * undeleted (deleted, or with a null flag), in request order.
   */
  function FirstUnusable(roles: RoleRepository.RoleTable, ids: seq<RoleId>): (r: Option<nat>)
    ensures r.None? <==> forall i :: 0 <= i < |ids| && ids[i] in roles ==> RoleRepository.IsActiveRole(roles[ids[i]])
    ensures r.Some? ==> r.value < |ids| && ids[r.value] in roles && !RoleRepository.IsActiveRole(roles[ids[r.value]])
  {
    if ids == [] then None
    else if ids[0] in roles && !RoleRepository.IsActiveRole(roles[ids[0]]) then Some(0)
    else match FirstUnusable(roles, ids[1..])
      case None => None
      case Some(i) => Some(i + 1)
  }

  /**
   * The EMPLOYEE role found by name. The finder has no deleted filter;
   * a second role of that name makes the query fail.
   */
  function DefaultRole(roles: RoleRepository.RoleTable, failure: string): (r: Result<RoleId>)
    ensures r.Ok? <==> RoleRepository.FindByName(roles, EMPLOYEE_ROLE).Found?
    ensures r.Ok? ==> r.value in roles && roles[r.value].name == Some(EMPLOYEE_ROLE)
    ensures RoleRepository.FindByName(roles, EMPLOYEE_ROLE).Absent? ==> r == Err(RoleAssignmentEx(DEFAULT_ROLE_MISSING))
    ensures RoleRepository.FindByName(roles, EMPLOYEE_ROLE).Duplicate? ==> r == Err(DatabaseEx(failure))
  {
    match RoleRepository.FindByName(roles, EMPLOYEE_ROLE)
    case Absent => Err(RoleAssignmentEx(DEFAULT_ROLE_MISSING))
    case Duplicate => Err(DatabaseEx(failure))
    case Found(k) => Ok(k)
  }

  /**
   * The roles saveUser gives a new user. With role ids requested: the
   * requested roles the table holds (unknown ids are skipped), refused
   * when one of them is deleted, and failing on a null flag. Without: the
   * EMPLOYEE role alone.
   */
  function InitialRoles(roles: RoleRepository.RoleTable, roleIds: Option<seq<RoleId>>): (r: Result<set<RoleId>>)
    ensures roleIds.Some? && roleIds.value != [] ==>
      (r.Ok? <==> forall i :: 0 <= i < |roleIds.value| && roleIds.value[i] in roles ==> RoleRepository.IsActiveRole(roles[roleIds.value[i]]))
      && (r.Ok? ==> r.value == RoleRepository.FindAllById(roles, roleIds.value))
      && (r.Err? ==> r.error.RoleAssignmentEx? || r.error == DatabaseEx(SAVE_FAILURE))
      && (r.Err? && r.error.RoleAssignmentEx? ==>
            exists i :: 0 <= i < |roleIds.value| && roleIds.value[i] in roles && roles[roleIds.value[i]].isDeleted == Some(true))
    ensures (roleIds.None? || roleIds.value == []) ==>
      (r.Ok? <==> DefaultRole(roles, SAVE_FAILURE).Ok?)
      && (r.Ok? ==> r.value == {DefaultRole(roles, SAVE_FAILURE).value})
      && (r.Err? ==> r.error == DefaultRole(roles, SAVE_FAILURE).error)
  {
    if roleIds.Some? && roleIds.value != [] then
      match FirstUnusable(roles, roleIds.value)
      case None => Ok(RoleRepository.FindAllById(roles, roleIds.value))
      case Some(i) =>
        var id := roleIds.value[i];
        if roles[id].isDeleted == Some(true) then Err(RoleAssignmentEx("Cannot assign deleted role: " + DecimalText(id)))
        else Err(DatabaseEx(SAVE_FAILURE))
    else
      match DefaultRole(roles, SAVE_FAILURE)
      case Err(e) => Err(e)
      case Ok(k) => Ok({k})
  }

  /**
   * Only undeleted roles are ever handed out for requested ids: every role
   * of the result exists and is active.
   */
  lemma RequestedRolesActive(roles: RoleRepository.RoleTable, roleIds: seq<RoleId>)
    requires roleIds != []
    ensures InitialRoles(roles, Some(roleIds)).Ok? ==>
      forall id :: id in InitialRoles(roles, Some(roleIds)).value ==> id in roles && RoleRepository.IsActiveRole(roles[id])
  {
    if InitialRoles(roles, Some(roleIds)).Ok? {
      forall id | id in InitialRoles(roles, Some(roleIds)).value
        ensures id in roles && RoleRepository.IsActiveRole(roles[id])
      {
        var i :| 0 <= i < |roleIds| && roleIds[i] == id;
      }
    }
  }

  /**
   * The default role is found by name alone: a deleted EMPLOYEE role is
   * still handed to new users.
   */
  lemma DeletedDefaultRoleStillAssigned(roles: RoleRepository.RoleTable, k: RoleId)
    requires k in roles && roles[k].name == Some(EMPLOYEE_ROLE) && roles[k].isDeleted == Some(true)
    requires forall id :: id in roles && id != k ==> roles[id].name != Some(EMPLOYEE_ROLE)
    ensures InitialRoles(roles, None) == Ok({k})
  {
  }

  // ---------------------------------------------------------------- saveUser

  /**
   * The user saveUser builds: the body's e-mail, names, department and
   * project, the generated code as employee id and, encoded, as password;
   * active, not deleted, with the given roles. The address is not copied.
   */
  function CreatedUser(id: UserId, dto: UserRequest, email: string, code: string,
                       encode: string -> string, roles: set<RoleId>): (u: User)
    ensures u.id == id && u.email == email && u.password == encode(code) && u.employeeId == Some(code)
    ensures IsLive(u) && u.roles == Some(roles) && u.address.None?
  {
    User(id, email, encode(code), dto.firstName, dto.lastName, None, dto.department, dto.project,
         Some(code), true, false, Some(roles), 0, None, None)
  }

  /**
   * What saveUser does with a body, as a value: a missing body or a blank
   * e-mail is refused; the employee code comes from the generator as
   * written, whose NumberFormatException surfaces as a database failure;
   * then a role with a null flag surfaces as a database failure, a
   * deleted role or a missing default role as a role assignment failure;
   * otherwise the new user. Neither the e-mail nor the code is checked
   * against the users already stored.
   */
  ghost function Creation(users: UserTable, roles: RoleRepository.RoleTable, dto: Option<UserRequest>,
                          encode: string -> string, year: nat, newId: UserId): (r: Result<User>)
    ensures dto.None? ==> r == Err(ValidationEx("User details cannot be null"))
    ensures dto.Some? && NullOrBlank(dto.value.email) ==> r == Err(ValidationEx("Email cannot be blank"))
    ensures dto.Some? && !NullOrBlank(dto.value.email) ==>
      var code := NextEmployeeCode(year, LastEmployeeCode(users, year));
      (r.Ok? <==> code.Ok? && InitialRoles(roles, dto.value.roleIds).Ok?)
      && (code.Err? ==> r == Err(DatabaseEx(SAVE_FAILURE)))
      && (code.Ok? && r.Err? ==> r.error == InitialRoles(roles, dto.value.roleIds).error)
    ensures r.Ok? ==>
      var u := r.value;
      u.id == newId && u.email == dto.value.email.value && IsLive(u)
      && u.employeeId == Some(NextEmployeeCode(year, LastEmployeeCode(users, year)).value)
      && StartsWith(u.employeeId.value, YearPrefix(year))
      && u.password == encode(u.employeeId.value)
      && u.roles == Some(InitialRoles(roles, dto.value.roleIds).value)
      && u.firstName == dto.value.firstName && u.lastName == dto.value.lastName
      && u.department == dto.value.department && u.project == dto.value.project
  {
    if dto.None? then Err(ValidationEx("User details cannot be null"))
    else if NullOrBlank(dto.value.email) then Err(ValidationEx("Email cannot be blank"))
    else match NextEmployeeCode(year, LastEmployeeCode(users, year))
      case Err(_) => Err(DatabaseEx(SAVE_FAILURE))
      case Ok(code) =>
        match InitialRoles(roles, dto.value.roleIds)
        case Err(e) => Err(e)
        case Ok(granted) => Ok(CreatedUser(newId, dto.value, dto.value.email.value, code, encode, granted))
  }

  /**
   * saveUser: the new user is saved under its fresh id and its body
   * returned; on failure nothing is saved.
   */
  method SaveUser(db: Database, dto: Option<UserRequest>, encode: string -> string, year: nat, newId: UserId)
    returns (r: Result<UserView>)
    requires db.Valid() && newId !in db.users
    modifies db
    ensures db.Valid()
    ensures db.roles == old(db.roles) && db.expenses == old(db.expenses) && db.blacklist == old(db.blacklist)
    ensures var c := Creation(old(db.users), old(db.roles), dto, encode, year, newId);
      (r.Ok? <==> c.Ok?)
      && (r.Err? ==> r.error == c.error && db.users == old(db.users))
      && (r.Ok? ==> db.users == old(db.users)[newId := c.value] && r.value == ToDto(Some(c.value)).value)
  {
    if dto.None? {
      return Err(ValidationEx("User details cannot be null"));
    }
    if NullOrBlank(dto.value.email) {
      return Err(ValidationEx("Email cannot be blank"));
    }
    var code := GenerateEmployeeCode(db.users, year);
    if code.Err? {
      return Err(DatabaseEx(SAVE_FAILURE));
    }
    var roles := InitialRoles(db.roles, dto.value.roleIds);
    if roles.Err? {
      return Err(roles.error);
    }
    var user := CreatedUser(newId, dto.value, dto.value.email.value, code.value, encode, roles.value);
    db.SaveUser(user);
    r := Ok(ToDto(Some(user)).value);
  }

  /**
   * After the 9999th code of a year, saveUser stores a code that a user
   * already holds: with prefix + "9999" and prefix + "10000" the year's
   * only codes, a successful save issues prefix + "10000" again.
   */
  lemma SavedCodeRepeats(users: UserTable, roles: RoleRepository.RoleTable, dto: Option<UserRequest>,
                         encode: string -> string, year: nat, newId: UserId)
    requires CodesWithPrefix(users, YearPrefix(year)) == {YearPrefix(year) + "9999", YearPrefix(year) + "10000"}
    ensures Creation(users, roles, dto, encode, year, newId).Ok? ==>
      var code := YearPrefix(year) + "10000";
      Creation(users, roles, dto, encode, year, newId).value.employeeId == Some(code)
      && exists id :: id in users && users[id].employeeId == Some(code)
  {
    var p := YearPrefix(year);
    CodeRepeatsAfter9999(year);
    GreatestUnique(CodesWithPrefix(users, p), LastEmployeeCode(users, year).value, p + "9999");
    assert p + "10000" in CodesWithPrefix(users, p);
  }

  // ---------------------------------------------------------------- registerUser

  /**
   * The user registerUser builds: the body's e-mail, names, address,
   * department and project, the encoded password, the generated employee
   * id; active, not deleted, with the one default role.
   */
  function RegisteredUser(id: UserId, dto: RegisterRequest, email: string, hash: string, code: string,
                          role: RoleId): (u: User)
    ensures u.id == id && u.email == email && u.password == hash && u.employeeId == Some(code)
    ensures IsLive(u) && u.roles == Some({role}) && u.address == dto.address
  {
    User(id, email, hash, dto.firstName, dto.lastName, dto.address, dto.department, dto.project,
         Some(code), true, false, Some({role}), 0, None, None)
  }

  /**
   * What registerUser does with a body, as a value: a missing body or
   * e-mail is refused; an e-mail an active user already holds is refused;
   * a failing finder, a missing password (the encoder throws) and the
   * generator's NumberFormatException surface as a database failure; a
   * missing default role as a role assignment failure; otherwise the new
   * user, with the code the generator as written gives.
   */
  ghost function Registration(users: UserTable, roles: RoleRepository.RoleTable, dto: Option<RegisterRequest>,
                              encode: string -> string, year: nat, newId: UserId): (r: Result<User>)
    ensures dto.None? || NullOrBlank(dto.value.email) ==>
      r == Err(ValidationEx("Registration details or email cannot be null"))
    ensures dto.Some? && !NullOrBlank(dto.value.email) && FindActiveByEmail(users, dto.value.email.value).Found? ==>
      r == Err(RegistrationEx("Email already registered: " + dto.value.email.value))
    ensures dto.Some? && !NullOrBlank(dto.value.email) ==>
      (r.Ok? <==> FindActiveByEmail(users, dto.value.email.value).Absent? && dto.value.password.Some?
                  && NextEmployeeCode(year, LastEmployeeCode(users, year)).Ok?
                  && DefaultRole(roles, REGISTER_FAILURE).Ok?)
    ensures dto.Some? && !NullOrBlank(dto.value.email) && FindActiveByEmail(users, dto.value.email.value).Absent?
            && dto.value.password.Some? && NextEmployeeCode(year, LastEmployeeCode(users, year)).Err? ==>
      r == Err(DatabaseEx(REGISTER_FAILURE))
    ensures r.Ok? ==>
      var u := r.value;
      u.id == newId && u.email == dto.value.email.value && IsLive(u)
      && u.password == encode(dto.value.password.value)
      && u.employeeId == Some(NextEmployeeCode(year, LastEmployeeCode(users, year)).value)
      && StartsWith(u.employeeId.value, YearPrefix(year))
      && u.roles == Some({DefaultRole(roles, REGISTER_FAILURE).value})
      && roles[DefaultRole(roles, REGISTER_FAILURE).value].name == Some(EMPLOYEE_ROLE)
      && u.firstName == dto.value.firstName && u.lastName == dto.value.lastName && u.address == dto.value.address
      && u.department == dto.value.department && u.project == dto.value.project
  {
    if dto.None? || NullOrBlank(dto.value.email) then Err(ValidationEx("Registration details or email cannot be null"))
    else
      var email := dto.value.email.value;
      match FindActiveByEmail(users, email)
      case Found(_) => Err(RegistrationEx("Email already registered: " + email))
      case Duplicate => Err(DatabaseEx(REGISTER_FAILURE))
      case Absent =>
        if dto.value.password.None? then Err(DatabaseEx(REGISTER_FAILURE))
        else match NextEmployeeCode(year, LastEmployeeCode(users, year))
          case Err(_) => Err(DatabaseEx(REGISTER_FAILURE))
          case Ok(code) =>
            match DefaultRole(roles, REGISTER_FAILURE)
            case Err(e) => Err(e)
            case Ok(k) => Ok(RegisteredUser(newId, dto.value, email, encode(dto.value.password.value), code, k))
  }

  /**
   * registerUser: the new user is saved under its fresh id and its body
   * returned; on failure nothing is saved.
   */
  method RegisterUser(db: Database, dto: Option<RegisterRequest>, encode: string -> string, year: nat, newId: UserId)
    returns (r: Result<UserView>)
    requires db.Valid() && newId !in db.users
    modifies db
    ensures db.Valid()
    ensures db.roles == old(db.roles) && db.expenses == old(db.expenses) && db.blacklist == old(db.blacklist)
    ensures var c := Registration(old(db.users), old(db.roles), dto, encode, year, newId);
      (r.Ok? <==> c.Ok?)
      && (r.Err? ==> r.error == c.error && db.users == old(db.users))
      && (r.Ok? ==> db.users == old(db.users)[newId := c.value] && r.value == ToDto(Some(c.value)).value)
  {
    if dto.None? || NullOrBlank(dto.value.email) {
      return Err(ValidationEx("Registration details or email cannot be null"));
    }
    var email := dto.value.email.value;
    var existing := FindActiveByEmail(db.users, email);
    if existing.Found? {
      return Err(RegistrationEx("Email already registered: " + email));
    }
    if existing.Duplicate? || dto.value.password.None? {
      return Err(DatabaseEx(REGISTER_FAILURE));
    }
    var hash := encode(dto.value.password.value);
    var code := GenerateEmployeeCode(db.users, year);
    if code.Err? {
      return Err(DatabaseEx(REGISTER_FAILURE));
    }
    var role := DefaultRole(db.roles, REGISTER_FAILURE);
    if role.Err? {
      return Err(role.error);
    }
    var user := RegisteredUser(newId, dto.value, email, hash, code.value, role.value);
    db.SaveUser(user);
    r := Ok(ToDto(Some(user)).value);
  }

  /**
   * Registration takes the e-mail: once it succeeds, the active-user
   * finder returns the new user for it, so registering the same e-mail
   * again is refused.
   */
  lemma RegisteredEmailTaken(users: UserTable, newId: UserId, u: User)
    requires newId !in users && u.id == newId && IsLive(u)
    requires FindActiveByEmail(users, u.email).Absent?
    ensures FindActiveByEmail(users[newId := u], u.email) == Found(newId)
  {
    var after := users[newId := u];
    var s := set id | id in after && after[id].email == u.email && IsLive(after[id]);
    assert s == {newId};
  }

  // ---------------------------------------------------------------- editUser

  /** The profile fields an edit may carry; null means "leave as is". */
  datatype UserUpdate = UserUpdate(
    firstName: Option<string>,
    lastName: Option<string>,
    address: Option<string>,
    department: Option<string>,
    project: Option<string>)

  /** The new value of a field: the given one, or the old one when none is given. */
  function IfGiven(given: Option<string>, current: Option<string>): (r: Option<string>)
    ensures given.Some? ==> r == given
    ensures given.None? ==> r == current
  {
    if given.Some? then given else current
  }

  /**
   * The user after an edit: each of the five profile fields takes the
   * given value when there is one; every other field, e-mail, password,
   * roles and flags among them, is unchanged.
   */
  function Edited(u: User, update: UserUpdate): (v: User)
    ensures v.firstName == IfGiven(update.firstName, u.firstName)
    ensures v.lastName == IfGiven(update.lastName, u.lastName)
    ensures v.address == IfGiven(update.address, u.address)
    ensures v.department == IfGiven(update.department, u.department)
    ensures v.project == IfGiven(update.project, u.project)
    ensures v.(firstName := u.firstName, lastName := u.lastName, address := u.address,
               department := u.department, project := u.project) == u
  {
    u.(firstName := IfGiven(update.firstName, u.firstName),
       lastName := IfGiven(update.lastName, u.lastName),
       address := IfGiven(update.address, u.address),
       department := IfGiven(update.department, u.department),
       project := IfGiven(update.project, u.project))
  }

  /** Applying an edit twice is applying it once; an edit with no fields changes nothing. */
  lemma EditIdempotent(u: User, update: UserUpdate)
    ensures Edited(Edited(u, update), update) == Edited(u, update)
    ensures Edited(u, UserUpdate(None, None, None, None, None)) == u
  {
  }

  /**
   * editUser: refuses a missing id or body and a user who is not active;
   * otherwise saves the edited user and returns its body.
   */
  method EditUser(db: Database, update: Option<UserUpdate>, userId: Option<UserId>) returns (r: Result<UserView>)
    requires db.Valid()
    modifies db
    ensures db.Valid()
    ensures db.roles == old(db.roles) && db.expenses == old(db.expenses) && db.blacklist == old(db.blacklist)
    ensures userId.None? || update.None? ==> r == Err(ValidationEx("User ID or data cannot be null"))
    ensures userId.Some? && update.Some? && FindActiveById(old(db.users), userId.value).None? ==>
      r == Err(UserNotFoundEx("User not found"))
    ensures r.Ok? <==> userId.Some? && update.Some? && FindActiveById(old(db.users), userId.value).Some?
    ensures r.Ok? ==>
      var u := Edited(old(db.users)[userId.value], update.value);
      db.users == old(db.users)[userId.value := u] && r.value == ToDto(Some(u)).value
    ensures r.Err? ==> db.users == old(db.users)
  {
    if userId.None? || update.None? {
      return Err(ValidationEx("User ID or data cannot be null"));
    }
    var found := FindActiveById(db.users, userId.value);
    if found.None? {
      return Err(UserNotFoundEx("User not found"));
    }
    var u := Edited(found.value, update.value);
    db.SaveUser(u);
    r := Ok(ToDto(Some(u)).value);
  }

  // ---------------------------------------------------------------- passwords

  /**
   * changePasswordForLoggedInUser: refuses a missing password; the signed
   * in user must be active (no one signed in finds no one); a wrong old
   * password is refused; otherwise the new password is encoded and saved.
   */
  method ChangePasswordForLoggedInUser(db: Database, currentEmail: Option<string>, oldPassword: Option<string>,
                                       newPassword: Option<string>, encode: string -> string,
                                       matches: (string, string) -> bool) returns (r: Outcome)
    requires db.Valid()
    modifies db
    ensures db.Valid()
    ensures db.roles == old(db.roles) && db.expenses == old(db.expenses) && db.blacklist == old(db.blacklist)
    ensures oldPassword.None? || newPassword.None? ==> r == Fail(ValidationEx("Passwords cannot be null"))
    ensures oldPassword.Some? && newPassword.Some? && (currentEmail.None? || FindActiveByEmail(old(db.users), currentEmail.value).Absent?) ==>
      r == Fail(UserNotFoundEx("User not found"))
    ensures r == Pass <==>
      oldPassword.Some? && newPassword.Some? && currentEmail.Some?
      && FindActiveByEmail(old(db.users), currentEmail.value).Found?
      && matches(oldPassword.value, old(db.users)[FindActiveByEmail(old(db.users), currentEmail.value).key].password)
    ensures r == Pass ==>
      var id := FindActiveByEmail(old(db.users), currentEmail.value).key;
      db.users == old(db.users)[id := old(db.users)[id].(password := encode(newPassword.value))]
    ensures r.Fail? ==> db.users == old(db.users)
  {
    if oldPassword.None? || newPassword.None? {
      return Fail(ValidationEx("Passwords cannot be null"));
    }
    if currentEmail.None? {
      return Fail(UserNotFoundEx("User not found"));
    }
    var found := FindActiveByEmail(db.users, currentEmail.value);
    match found
    case Absent => return Fail(UserNotFoundEx("User not found"));
    case Duplicate => return Fail(RuntimeEx("Query did not return a unique result"));
    case Found(id) =>
      var u := db.users[id];
      if !matches(oldPassword.value, u.password) {
        return Fail(ValidationEx("Old password is incorrect"));
      }
      db.SaveUser(u.(password := encode(newPassword.value)));
      r := Pass;
  }

  /**
   * resetPasswordByAdmin: refuses a missing id or a blank password and a
   * user who is not active; otherwise the user's password becomes the
   * encoded new one and nothing else changes.
   */
  method ResetPasswordByAdmin(db: Database, userId: Option<UserId>, newPassword: Option<string>,
                              encode: string -> string) returns (r: Outcome)
    requires db.Valid()
    modifies db
    ensures db.Valid()
    ensures db.roles == old(db.roles) && db.expenses == old(db.expenses) && db.blacklist == old(db.blacklist)
    ensures userId.None? || NullOrBlank(newPassword) ==>
      r == Fail(ValidationEx("User ID and new password cannot be null or blank"))
    ensures userId.Some? && !NullOrBlank(newPassword) && FindActiveById(old(db.users), userId.value).None? ==>
      r == Fail(UserNotFoundEx("User not found with ID: " + DecimalText(userId.value)))
    ensures r == Pass <==> userId.Some? && !NullOrBlank(newPassword) && FindActiveById(old(db.users), userId.value).Some?
    ensures r == Pass ==>
      db.users == old(db.users)[userId.value := old(db.users)[userId.value].(password := encode(newPassword.value))]
    ensures r.Fail? ==> db.users == old(db.users)
  {
    if userId.None? || NullOrBlank(newPassword) {
      return Fail(ValidationEx("User ID and new password cannot be null or blank"));
    }
    var found := FindActiveById(db.users, userId.value);
    if found.None? {
      return Fail(UserNotFoundEx("User not found with ID: " + DecimalText(userId.value)));
    }
    db.SaveUser(found.value.(password := encode(newPassword.value)));
    r := Pass;
  }

  /**
   * A changed password only opens the account under the new password:
   * when the encoder and its check agree, the stored hash accepts the new
   * password, and a user differing only in the password gives the same
   * body.
   */
  lemma PasswordChangeHidden(u: User, newPassword: string, encode: string -> string,
                             matches: (string, string) -> bool)
    requires matches(newPassword, encode(newPassword))
    ensures matches(newPassword, u.(password := encode(newPassword)).password)
    ensures ToDto(Some(u.(password := encode(newPassword)))) == ToDto(Some(u))
  {
    SecretsHidden(u, encode(newPassword), u.isActive, u.isDeleted, u.failedAttempts, u.lastFailedAttempt, u.lockedUntil);
  }

  // ---------------------------------------------------------------- deleteUserById

  /**
   * deleteUserById: refuses a missing id and a user who is not active;
   * otherwise soft-deletes the user.
   */
  method DeleteUserById(db: Database, userId: Option<UserId>) returns (r: Outcome)
    requires db.Valid()
    modifies db
    ensures db.Valid()
    ensures db.roles == old(db.roles) && db.expenses == old(db.expenses) && db.blacklist == old(db.blacklist)
    ensures userId.None? ==> r == Fail(ValidationEx("User ID cannot be null"))
    ensures userId.Some? && FindActiveById(old(db.users), userId.value).None? ==> r == Fail(UserNotFoundEx("User not found"))
    ensures r == Pass <==> userId.Some? && FindActiveById(old(db.users), userId.value).Some?
    ensures r == Pass ==>
      db.users == old(db.users)[userId.value := old(db.users)[userId.value].(isDeleted := true)]
      && FindActiveById(db.users, userId.value).None?
    ensures r.Fail? ==> db.users == old(db.users)
  {
    if userId.None? {
      return Fail(ValidationEx("User ID cannot be null"));
    }
    if FindActiveById(db.users, userId.value).None? {
      return Fail(UserNotFoundEx("User not found"));
    }
    db.SoftDeleteUser(userId.value);
    r := Pass;
  }

  /**
   * A deleted user is gone for every active finder: found neither by id
   * nor by e-mail, and missing from the active list; a second delete is
   * refused.
   */
  lemma DeletedUserHidden(users: UserTable, id: UserId)
    requires id in users
    ensures var after := users[id := users[id].(isDeleted := true)];
      FindActiveById(after, id).None?
      && id !in FindAllActiveUsers(after)
      && (FindActiveByEmail(after, users[id].email).Found? ==> FindActiveByEmail(after, users[id].email).key != id)
  {
  }
}
