/**
 * Conversions between the role entity and the role body of the API.
 */
module RoleMapper {
  import opened Base
  import opened Entities
  import opened RoleRepository

  /** The role body: id, name, description and a list of user ids that is never filled in. */
  datatype RoleView = RoleView(
    id: Option<RoleId>,
    name: Option<string>,
    description: Option<string>,
    userIds: Option<seq<UserId>>)

  /** toDto: null maps to null; id, name and description are copied; no user ids. */
  function ToDto(role: Option<Role>): (r: Option<RoleView>)
    ensures r.Some? <==> role.Some?
    ensures r.Some? ==>
      r.value.id == role.value.id && r.value.name == role.value.name
      && r.value.description == role.value.description && r.value.userIds.None?
  {
    match role
    case None => None
    case Some(x) => Some(RoleView(x.id, x.name, x.description, None))
  }

  /**
   * toEntity as written: null maps to null; name and description are
   * copied and the id is left for the database. The builder ignores the
   * field's initial value, so the deleted flag is null rather than false.
   */
  function ToEntityAsWritten(dto: Option<RoleView>): (r: Option<Role>)
    ensures r.Some? <==> dto.Some?
    ensures r.Some? ==>
      r.value.id.None? && r.value.name == dto.value.name && r.value.description == dto.value.description
      && r.value.isDeleted.None?
  {
    match dto
    case None => None
    case Some(d) => Some(Role(None, d.name, d.description, None))
  }

  /**
   * A role built as written is not active: once stored under any key it
   * is invisible to findActiveById, findActiveByName and findAllActive.
   */
  lemma BuiltRoleInvisible(roles: RoleTable, key: RoleId, dto: RoleView)
    ensures var stored := ToEntityAsWritten(Some(dto)).value.(id := Some(key));
      var after := roles[key := stored];
      FindActiveById(after, key).None?
      && key !in FindAllActive(after)
      && (dto.name.Some? ==> FindActiveByName(after, dto.name.value) == FindActiveByName(roles - {key}, dto.name.value))
  {
    var stored := ToEntityAsWritten(Some(dto)).value.(id := Some(key));
    var after := roles[key := stored];
    if dto.name.Some? {
      var n := dto.name.value;
      assert (set id | id in after && after[id].name == Some(n) && IsActiveRole(after[id]))
          == (set id | id in roles - {key} && (roles - {key})[id].name == Some(n) && IsActiveRole((roles - {key})[id]));
    }
  }

  /**
   * toEntity as evidently intended: as written, but the new role starts
   * out not deleted, the field's declared initial value.
   */
  function ToEntity(dto: Option<RoleView>): (r: Option<Role>)
    ensures r.Some? <==> dto.Some?
    ensures r.Some? ==>
      r.value.id.None? && r.value.name == dto.value.name && r.value.description == dto.value.description
      && IsActiveRole(r.value)
  {
    match dto
    case None => None
    case Some(d) => Some(Role(None, d.name, d.description, Some(false)))
  }

  /** A role built this way and stored under a key is found by id and listed as active. */
  lemma BuiltRoleVisible(roles: RoleTable, key: RoleId, dto: RoleView)
    ensures var stored := ToEntity(Some(dto)).value.(id := Some(key));
      var after := roles[key := stored];
      FindActiveById(after, key) == Some(stored) && key in FindAllActive(after)
  {
  }

  /** toDto(toEntity(d)) keeps d's name and description; the id is the database's to assign. */
  lemma RoundTripKeepsNameAndDescription(dto: RoleView)
    ensures ToDto(ToEntity(Some(dto))).value.name == dto.name
    ensures ToDto(ToEntity(Some(dto))).value.description == dto.description
    ensures ToDto(ToEntity(Some(dto))).value.id.None?
    ensures ToDto(ToEntityAsWritten(Some(dto))) == ToDto(ToEntity(Some(dto)))
  {
  }
}
