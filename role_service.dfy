/**
 * The role service: creation, lookup by id and by name, edits, soft
 * deletion and the assignment of roles to a user. The id of a new role is
 * given by the caller, as the database generates it.
 */
module RoleService {
  import opened Base
  import opened Entities
  import UserRepository
  import opened RoleRepository
  import opened RoleMapper
  import opened Store

  const ASSIGN_FAILURE: string := "Failed to assign roles due to a database error"

  /**
   * saveRole: refuses a missing body or a blank name; otherwise stores the
   * role built from the body under its new id and returns its body. The
   * builder leaves the deleted flag null, so the stored role is invisible
   * to every active finder.
   */
  method SaveRole(db: Database, dto: Option<RoleView>, newId: RoleId) returns (r: Result<RoleView>)
    requires db.Valid() && newId !in db.roles
    modifies db
    ensures db.Valid()
    ensures db.users == old(db.users) && db.expenses == old(db.expenses) && db.blacklist == old(db.blacklist)
    ensures r.Err? <==> dto.None? || NullOrBlank(dto.value.name)
    ensures r.Err? ==> r.error == ValidationEx("Role name cannot be null or blank") && db.roles == old(db.roles)
    ensures r.Ok? ==>
      var stored := ToEntityAsWritten(dto).value.(id := Some(newId));
      db.roles == old(db.roles)[newId := stored]
      && r.value == ToDto(Some(stored)).value
      && stored.isDeleted.None?
      && FindActiveById(db.roles, newId).None?
      && newId !in FindAllActive(db.roles)
  {
    if dto.None? || NullOrBlank(dto.value.name) {
      return Err(ValidationEx("Role name cannot be null or blank"));
    }
    var stored := ToEntityAsWritten(dto).value.(id := Some(newId));
    BuiltRoleInvisible(db.roles, newId, dto.value);
    db.SaveRole(newId, stored);
    r := Ok(ToDto(Some(stored)).value);
  }

  /**
   * findRoleById: refuses a missing id; a role that is not active is not
   * found; otherwise its body.
   */
  function FindRoleById(roles: RoleTable, roleId: Option<RoleId>): (r: Result<RoleView>)
    ensures roleId.None? ==> r == Err(ValidationEx("Role ID cannot be null"))
    ensures r.Ok? <==> roleId.Some? && roleId.value in roles && IsActiveRole(roles[roleId.value])
    ensures r.Ok? ==> r.value.id == roles[roleId.value].id && r.value.name == roles[roleId.value].name
                      && r.value.description == roles[roleId.value].description
    ensures roleId.Some? && r.Err? ==> r.error == RoleNotFoundEx("Role not found with id: " + DecimalText(roleId.value))
  {
    if roleId.None? then Err(ValidationEx("Role ID cannot be null"))
    else match FindActiveById(roles, roleId.value)
      case None => Err(RoleNotFoundEx("Role not found with id: " + DecimalText(roleId.value)))
      case Some(role) => Ok(ToDto(Some(role)).value)
  }

  /**
   * findRoleByName: refuses a missing or blank name; no active role of
   * that name is not found; two are a database failure; otherwise its body.
   */
  function FindRoleByName(roles: RoleTable, name: Option<string>): (r: Result<RoleView>)
    ensures NullOrBlank(name) ==> r == Err(ValidationEx("Role name cannot be null or blank"))
    ensures r.Ok? <==> !NullOrBlank(name) && FindActiveByName(roles, name.value).Found?
    ensures r.Ok? ==> (r.value.name == name && r.value.id.Some?
                       && r.value.id.value in roles && IsActiveRole(roles[r.value.id.value]))
    ensures !NullOrBlank(name) && FindActiveByName(roles, name.value).Absent? ==>
      r == Err(RoleNotFoundEx("Role not found with name: " + name.value))
    ensures !NullOrBlank(name) && FindActiveByName(roles, name.value).Duplicate? ==>
      r == Err(DatabaseEx("Failed to fetch role due to a database error"))
  {
    if NullOrBlank(name) then Err(ValidationEx("Role name cannot be null or blank"))
    else match FindActiveByName(roles, name.value)
      case Absent => Err(RoleNotFoundEx("Role not found with name: " + name.value))
      case Duplicate => Err(DatabaseEx("Failed to fetch role due to a database error"))
      case Found(k) => Ok(ToDto(Some(roles[k])).value.(id := Some(k)))
  }

  /**
   * editRole: refuses a missing id or body and a role that is not active;
   * otherwise the role's name and description become the body's, null
   * ones included, and nothing else about it changes.
   */
  method EditRole(db: Database, dto: Option<RoleView>, roleId: Option<RoleId>) returns (r: Result<RoleView>)
    requires db.Valid()
    modifies db
    ensures db.Valid()
    ensures db.users == old(db.users) && db.expenses == old(db.expenses) && db.blacklist == old(db.blacklist)
    ensures roleId.None? || dto.None? ==> r == Err(ValidationEx("Role ID or details cannot be null"))
    ensures r.Ok? <==> roleId.Some? && dto.Some? && FindActiveById(old(db.roles), roleId.value).Some?
    ensures roleId.Some? && dto.Some? && r.Err? ==> r.error == RoleNotFoundEx("Role not found")
    ensures r.Ok? ==>
      var edited := old(db.roles)[roleId.value].(name := dto.value.name, description := dto.value.description);
      db.roles == old(db.roles)[roleId.value := edited] && r.value == ToDto(Some(edited)).value
    ensures r.Err? ==> db.roles == old(db.roles)
  {
    if roleId.None? || dto.None? {
      return Err(ValidationEx("Role ID or details cannot be null"));
    }
    var found := FindActiveById(db.roles, roleId.value);
    if found.None? {
      return Err(RoleNotFoundEx("Role not found"));
    }
    var edited := found.value.(name := dto.value.name, description := dto.value.description);
    db.SaveRole(roleId.value, edited);
    r := Ok(ToDto(Some(edited)).value);
  }

  /**
   * An edit may clear a role's name. Every user who holds the role can
   * then no longer have its authorities read, so the sign-in filter never
   * signs such a user in, and neither does login.
   */
  lemma NamelessRoleBlocksHolders(roles: RoleTable, key: RoleId, u: User)
    requires key in roles && u.roles.Some? && key in u.roles.value
    ensures Authorities(u, roles[key := roles[key].(name := None)]).Err?
  {
  }

  /**
   * deleteRoleById: refuses a missing id and a role that is not active;
   * otherwise soft-deletes the role.
   */
  method DeleteRoleById(db: Database, roleId: Option<RoleId>) returns (r: Outcome)
    requires db.Valid()
    modifies db
    ensures db.Valid()
    ensures db.users == old(db.users) && db.expenses == old(db.expenses) && db.blacklist == old(db.blacklist)
    ensures roleId.None? ==> r == Fail(ValidationEx("Role ID cannot be null"))
    ensures r == Pass <==> roleId.Some? && FindActiveById(old(db.roles), roleId.value).Some?
    ensures roleId.Some? && r.Fail? ==> r.error == RoleNotFoundEx("Role not found with ID: " + DecimalText(roleId.value))
    ensures r == Pass ==>
      db.roles == old(db.roles)[roleId.value := old(db.roles)[roleId.value].(isDeleted := Some(true))]
    ensures r.Fail? ==> db.roles == old(db.roles)
  {
    if roleId.None? {
      return Fail(ValidationEx("Role ID cannot be null"));
    }
    if FindActiveById(db.roles, roleId.value).None? {
      return Fail(RoleNotFoundEx("Role not found with ID: " + DecimalText(roleId.value)));
    }
    db.SoftDeleteRole(roleId.value);
    r := Pass;
  }

  /**
   * A deleted role is gone for the active finders: looking it up by id is
   * refused, it is no longer listed, and deleting it again is refused.
   */
  lemma DeletedRoleNotFound(roles: RoleTable, key: RoleId)
    requires key in roles
    ensures var after := roles[key := roles[key].(isDeleted := Some(true))];
      FindRoleById(after, Some(key)) == Err(RoleNotFoundEx("Role not found with id: " + DecimalText(key)))
      && key !in FindAllActive(after)
      && FindActiveById(after, key).None?
  {
  }

  // ---------------------------------------------------------------- assignRolesToUser

  /** The requested roles that exist and are not deleted: the stream filter `!role.getIsDeleted()`. */
  function ActiveAmong(roles: RoleTable, found: set<RoleId>): (r: set<RoleId>)
    requires forall id :: id in found ==> id in roles
    ensures forall id :: id in r <==> id in found && IsActiveRole(roles[id])
  {
    set id | id in found && IsActiveRole(roles[id])
  }

  /**
   * What assignRolesToUser does, as the user's new role set: a missing
   * user id or an empty request is refused; a user who is not active is
   * not found; no existing role among the ids, or only deleted ones, is
   * refused; a fetched role with a null deleted flag makes the filter
   * throw; otherwise the user's roles become exactly the requested roles
   * that exist and are not deleted.
   */
  function Assignment(users: UserRepository.UserTable, roles: RoleTable, userId: Option<UserId>,
                      roleIds: Option<seq<RoleId>>): (r: Result<set<RoleId>>)
    ensures userId.None? ==> r == Err(ValidationEx("User ID cannot be null"))
    ensures userId.Some? && (roleIds.None? || roleIds.value == []) ==>
      r == Err(ValidationEx("At least one role ID must be provided"))
    ensures userId.Some? && roleIds.Some? && roleIds.value != [] && UserRepository.FindActiveById(users, userId.value).None? ==>
      r == Err(UserNotFoundEx("User not found with ID: " + DecimalText(userId.value)))
    ensures r.Ok? <==>
      userId.Some? && roleIds.Some? && UserRepository.FindActiveById(users, userId.value).Some?
      && (forall id :: id in FindAllById(roles, roleIds.value) ==> roles[id].isDeleted.Some?)
      && exists id :: id in roleIds.value && id in roles && IsActiveRole(roles[id])
    ensures r.Ok? ==> forall id :: id in r.value <==> id in roleIds.value && id in roles && IsActiveRole(roles[id])
  {
    if userId.None? then Err(ValidationEx("User ID cannot be null"))
    else if roleIds.None? || roleIds.value == [] then Err(ValidationEx("At least one role ID must be provided"))
    else if UserRepository.FindActiveById(users, userId.value).None? then
      Err(UserNotFoundEx("User not found with ID: " + DecimalText(userId.value)))
    else
      var found := FindAllById(roles, roleIds.value);
      if found == {} then Err(RoleAssignmentEx("No valid roles found for the provided role IDs"))
      else if exists id :: id in found && roles[id].isDeleted.None? then Err(DatabaseEx(ASSIGN_FAILURE))
      else
        var active := ActiveAmong(roles, found);
        if active == {} then Err(RoleAssignmentEx("All provided roles are deleted"))
        else Ok(active)
  }

  /**
   * A request that names only deleted roles is refused with the message
   * for it, and one naming no existing role with the other.
   */
  lemma AssignmentRefusals(users: UserRepository.UserTable, roles: RoleTable, userId: UserId, roleIds: seq<RoleId>)
    requires roleIds != [] && UserRepository.FindActiveById(users, userId).Some?
    ensures (forall id :: id in roleIds ==> id !in roles) ==>
      Assignment(users, roles, Some(userId), Some(roleIds)) == Err(RoleAssignmentEx("No valid roles found for the provided role IDs"))
    ensures (exists id :: id in roleIds && id in roles)
            && (forall id :: id in roleIds && id in roles ==> roles[id].isDeleted == Some(true)) ==>
      Assignment(users, roles, Some(userId), Some(roleIds)) == Err(RoleAssignmentEx("All provided roles are deleted"))
  {
    var found := FindAllById(roles, roleIds);
    if exists id :: id in roleIds && id in roles {
      var w :| w in roleIds && w in roles;
      assert w in found;
    } else {
      assert found == {};
    }
  }

  /**
   * assignRolesToUser: on success the user's role set is replaced by the
   * assignment and nothing else changes; on failure nothing is saved.
   */
  method AssignRolesToUser(db: Database, userId: Option<UserId>, roleIds: Option<seq<RoleId>>) returns (r: Outcome)
    requires db.Valid()
    modifies db
    ensures db.Valid()
    ensures db.roles == old(db.roles) && db.expenses == old(db.expenses) && db.blacklist == old(db.blacklist)
    ensures var a := Assignment(old(db.users), old(db.roles), userId, roleIds);
      (r == Pass <==> a.Ok?)
      && (r.Fail? ==> r.error == a.error && db.users == old(db.users))
      && (r == Pass ==> db.users == old(db.users)[userId.value := old(db.users)[userId.value].(roles := Some(a.value))])
  {
    var a := Assignment(db.users, db.roles, userId, roleIds);
    if a.Err? {
      return Fail(a.error);
    }
    var user := db.users[userId.value];
    db.SaveUser(user.(roles := Some(a.value)));
    r := Pass;
  }
}
