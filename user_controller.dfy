/**
 * The guards the user endpoints apply before calling the user service.
 * Request bodies arrive after bean validation; a body the constraints
 * reject never reaches these guards, which the lemmas below record.
 */
module UserController {
  import opened Base
  import opened Entities
  import opened Validation
  import opened Store
  import opened UserMapper
  import UserRepository
  import UserService

  const EQUAL_PASSWORDS: string := "Both new password and confirm password must be equal"

  /**
   * createUser (answered 201 on success): a missing body or a missing or
   * blank e-mail is refused here; otherwise the outcome is saveUser's.
   */
  method CreateUser(db: Database, dto: Option<UserRequest>, encode: string -> string, year: nat, newId: UserId)
    returns (r: Result<UserView>)
    requires db.Valid() && newId !in db.users
    modifies db
    ensures db.Valid()
    ensures db.roles == old(db.roles) && db.expenses == old(db.expenses) && db.blacklist == old(db.blacklist)
    ensures dto.None? || NullOrBlank(dto.value.email) ==>
      r == Err(ValidationEx("User details or email cannot be null or blank")) && db.users == old(db.users)
    ensures dto.Some? && !NullOrBlank(dto.value.email) ==>
      var c := UserService.Creation(old(db.users), old(db.roles), dto, encode, year, newId);
      (r.Ok? <==> c.Ok?)
      && (r.Err? ==> r.error == c.error && db.users == old(db.users))
      && (r.Ok? ==> db.users == old(db.users)[newId := c.value] && r.value == ToDto(Some(c.value)).value)
  {
    if dto.None? || NullOrBlank(dto.value.email) {
      return Err(ValidationEx("User details or email cannot be null or blank"));
    }
    r := UserService.SaveUser(db, dto, encode, year, newId);
  }

  /** A well-formed e-mail is never blank. */
  lemma ValidEmailNotBlank(s: string)
    requires ValidEmail(s)
    ensures !IsBlank(s)
  {
    var at := IndexOf(s, '@').value;
    assert s[at] == '@' && !IsWhitespace(s[at]);
  }

  /** A user body that passed its constraints always passes the createUser guard. */
  lemma ValidatedUserBodyPassesGuard(dto: UserRequest)
    requires UserRequestErrors(dto) == []
    ensures !NullOrBlank(dto.email)
  {
    ValidEmailNotBlank(dto.email.value);
  }

  /**
   * getUserByEmail, with the service's findUserByEmail behind it: a missing
   * or blank e-mail is refused; no active user with it is not found; two
   * are a database failure; otherwise the body of the one active user
   * with that e-mail. Each row is stored under its own id.
   */
  function GetUserByEmail(users: UserRepository.UserTable, email: Option<string>): (r: Result<UserView>)
    requires forall id :: id in users ==> users[id].id == id
    ensures NullOrBlank(email) ==> r == Err(ValidationEx("Email cannot be null or blank"))
    ensures r.Ok? <==> !NullOrBlank(email) && UserRepository.FindActiveByEmail(users, email.value).Found?
    ensures r.Ok? ==> r.value.email == email.value && r.value.id in users && IsLive(users[r.value.id])
    ensures !NullOrBlank(email) && UserRepository.FindActiveByEmail(users, email.value).Absent? ==>
      r == Err(UserNotFoundEx("User not found with email: " + email.value))
    ensures !NullOrBlank(email) && UserRepository.FindActiveByEmail(users, email.value).Duplicate? ==>
      r == Err(DatabaseEx("Failed to fetch user from the database"))
  {
    if NullOrBlank(email) then Err(ValidationEx("Email cannot be null or blank"))
    else match UserRepository.FindActiveByEmail(users, email.value)
      case Absent => Err(UserNotFoundEx("User not found with email: " + email.value))
      case Duplicate => Err(DatabaseEx("Failed to fetch user from the database"))
      case Found(k) => Ok(ToDto(Some(users[k])).value)
  }

  /**
   * changePassword: a missing body or password is refused; a confirmation
   * that differs from the new password is refused before the service is
   * called; otherwise the outcome is changePasswordForLoggedInUser's for
   * the signed-in user.
   */
  method ChangePassword(db: Database, dto: Option<PasswordRequest>, currentEmail: Option<string>,
                        encode: string -> string, matches: (string, string) -> bool) returns (r: Outcome)
    requires db.Valid()
    modifies db
    ensures db.Valid()
    ensures db.roles == old(db.roles) && db.expenses == old(db.expenses) && db.blacklist == old(db.blacklist)
    ensures dto.None? || dto.value.oldPassword.None? || dto.value.newPassword.None? || dto.value.confirmPassword.None? ==>
      r == Fail(ValidationEx("User ID and passwords cannot be null")) && db.users == old(db.users)
    ensures dto.Some? && dto.value.newPassword.Some? && dto.value.oldPassword.Some? && dto.value.confirmPassword.Some?
            && dto.value.confirmPassword != dto.value.newPassword ==>
      r == Fail(BadRequestEx(EQUAL_PASSWORDS)) && db.users == old(db.users)
    ensures r == Pass <==>
      dto.Some? && dto.value.oldPassword.Some? && dto.value.newPassword.Some?
      && dto.value.confirmPassword == dto.value.newPassword
      && currentEmail.Some? && UserRepository.FindActiveByEmail(old(db.users), currentEmail.value).Found?
      && matches(dto.value.oldPassword.value,
                 old(db.users)[UserRepository.FindActiveByEmail(old(db.users), currentEmail.value).key].password)
    ensures r == Pass ==>
      var id := UserRepository.FindActiveByEmail(old(db.users), currentEmail.value).key;
      db.users == old(db.users)[id := old(db.users)[id].(password := encode(dto.value.newPassword.value))]
    ensures r.Fail? ==> db.users == old(db.users)
  {
    if dto.None? || dto.value.oldPassword.None? || dto.value.newPassword.None? || dto.value.confirmPassword.None? {
      return Fail(ValidationEx("User ID and passwords cannot be null"));
    }
    if dto.value.confirmPassword != dto.value.newPassword {
      return Fail(BadRequestEx(EQUAL_PASSWORDS));
    }
    r := UserService.ChangePasswordForLoggedInUser(db, currentEmail, dto.value.oldPassword, dto.value.newPassword,
                                                   encode, matches);
  }

  /**
   * resetPassword: the body is read without a null check, so a missing
   * body or confirmation throws; a confirmation that differs from the new
   * password is refused before the service is called; otherwise the
   * outcome is resetPasswordByAdmin's for the user of the path.
   */
  method ResetPassword(db: Database, id: UserId, dto: Option<PasswordRequest>, encode: string -> string)
    returns (r: Outcome)
    requires db.Valid()
    modifies db
    ensures db.Valid()
    ensures db.roles == old(db.roles) && db.expenses == old(db.expenses) && db.blacklist == old(db.blacklist)
    ensures dto.None? || dto.value.confirmPassword.None? ==>
      r == Fail(RuntimeEx("NullPointerException")) && db.users == old(db.users)
    ensures dto.Some? && dto.value.confirmPassword.Some? && dto.value.confirmPassword != dto.value.newPassword ==>
      r == Fail(BadRequestEx(EQUAL_PASSWORDS)) && db.users == old(db.users)
    ensures r == Pass <==>
      dto.Some? && dto.value.confirmPassword.Some? && dto.value.confirmPassword == dto.value.newPassword
      && !NullOrBlank(dto.value.newPassword) && UserRepository.FindActiveById(old(db.users), id).Some?
    ensures r == Pass ==>
      db.users == old(db.users)[id := old(db.users)[id].(password := encode(dto.value.newPassword.value))]
    ensures r.Fail? ==> db.users == old(db.users)
  {
    if dto.None? || dto.value.confirmPassword.None? {
      return Fail(RuntimeEx("NullPointerException"));
    }
    if dto.value.confirmPassword != dto.value.newPassword {
      return Fail(BadRequestEx(EQUAL_PASSWORDS));
    }
    r := UserService.ResetPasswordByAdmin(db, Some(id), dto.value.newPassword, encode);
  }

  /**
   * A password body that passed its constraints never trips the null
   * guard of changePassword nor the null dereference of resetPassword;
   * only the equality of new password and confirmation is left to decide.
   */
  lemma ValidatedPasswordBodyPassesNullGuards(dto: PasswordRequest)
    requires PasswordRequestErrors(dto) == []
    ensures dto.oldPassword.Some? && dto.newPassword.Some? && dto.confirmPassword.Some?
    ensures !IsBlank(dto.newPassword.value)
  {
    var p := dto.newPassword.value;
    var i :| 0 <= i < |p| && '0' <= p[i] <= '9';
    assert !IsWhitespace(p[i]);
  }
}
