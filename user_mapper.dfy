/**
 * The conversion of a user entity to the user body the API returns. The
 * body shows the identity, name, place and role ids of the user and never
 * its password, its flags or its lockout counters.
 */
module UserMapper {
  import opened Base
  import opened Entities

  /**
   * The user body as the API returns it. The role ids come from a set of
   * roles, so they hold no duplicates; their order is not modelled.
   */
  datatype UserView = UserView(
    id: UserId,
    firstName: Option<string>,
    lastName: Option<string>,
    email: string,
    address: Option<string>,
    department: Option<string>,
    project: Option<string>,
    employeeId: Option<string>,
    roleIds: Option<set<RoleId>>)

  /** The fields of a user that the body shows. */
  predicate SameVisibleFields(u: User, v: User)
  {
    u.id == v.id && u.firstName == v.firstName && u.lastName == v.lastName && u.email == v.email
    && u.address == v.address && u.department == v.department && u.project == v.project
    && u.employeeId == v.employeeId && u.roles == v.roles
  }

  /**
   * toDto: null maps to null; otherwise identity, names, e-mail, address,
   * department, project and employee id are copied, and the role ids are
   * the ids of the user's roles, set only when the user has a role set.
   */
  function ToDto(user: Option<User>): (r: Option<UserView>)
    ensures r.Some? <==> user.Some?
    ensures r.Some? ==>
      var u := user.value;
      r.value.id == u.id && r.value.email == u.email
      && r.value.firstName == u.firstName && r.value.lastName == u.lastName
      && r.value.address == u.address && r.value.department == u.department
      && r.value.project == u.project && r.value.employeeId == u.employeeId
      && (r.value.roleIds.Some? <==> u.roles.Some?)
      && (u.roles.Some? ==> forall id :: id in r.value.roleIds.value <==> id in u.roles.value)
  {
    match user
    case None => None
    case Some(u) =>
      Some(UserView(u.id, u.firstName, u.lastName, u.email, u.address, u.department, u.project,
                    u.employeeId, u.roles))
  }

  /**
   * Two users give the same body exactly when they agree on the fields it
   * shows: password, active and deleted flags and lockout counters never
   * reach it, and every field it shows is the user's own.
   */
  lemma BodyShowsExactlyVisibleFields(u: User, v: User)
    ensures ToDto(Some(u)) == ToDto(Some(v)) <==> SameVisibleFields(u, v)
  {
    if ToDto(Some(u)) == ToDto(Some(v)) {
      var a, b := ToDto(Some(u)).value, ToDto(Some(v)).value;
      assert a.roleIds == b.roleIds;
      if u.roles.Some? {
        assert u.roles.value == a.roleIds.value == b.roleIds.value == v.roles.value;
      }
    }
  }

  /** In particular a new password, new flags or new lockout counters leave the body unchanged. */
  lemma SecretsHidden(u: User, password: string, isActive: bool, isDeleted: bool,
                      failed: int, last: Option<int>, locked: Option<int>)
    ensures ToDto(Some(u.(password := password, isActive := isActive, isDeleted := isDeleted,
                          failedAttempts := failed, lastFailedAttempt := last, lockedUntil := locked)))
            == ToDto(Some(u))
  {
    BodyShowsExactlyVisibleFields(u, u.(password := password, isActive := isActive, isDeleted := isDeleted,
                                        failedAttempts := failed, lastFailedAttempt := last, lockedUntil := locked));
  }
}
