/**
 * The role table's finders. A role is active when its deleted flag is
 * false; a null flag matches neither `isDeleted = false` nor `= true`.
 */
module RoleRepository {
  import opened Base
  import opened Entities

  type RoleTable = map<RoleId, Role>

  /** The filter `r.isDeleted = false`. */
  predicate IsActiveRole(r: Role)
  {
    r.isDeleted == Some(false)
  }

  /** findByName: no deleted filter, so a deleted role can be returned. */
  function FindByName(roles: RoleTable, name: string): (r: Lookup<RoleId>)
    ensures r.Found? ==> r.key in roles && roles[r.key].name == Some(name)
    ensures r.Absent? <==> forall id :: id in roles ==> roles[id].name != Some(name)
    ensures forall k :: (k in roles && roles[k].name == Some(name)
                         && (forall id :: id in roles && roles[id].name == Some(name) ==> id == k)) ==> r == Found(k)
  {
    var s := set id | id in roles && roles[id].name == Some(name);
    forall k | k in roles && roles[k].name == Some(name) && (forall id :: id in roles && roles[id].name == Some(name) ==> id == k)
      ensures s == {k}
    {
    }
    assert s == {} <==> forall id :: id in roles ==> roles[id].name != Some(name) by {
      if s != {} {
        var x :| x in s;
      } else {
        forall id | id in roles ensures id !in s { }
      }
    }
    Unique(s)
  }

  /** findAllActive: exactly the non-deleted roles. */
  function FindAllActive(roles: RoleTable): (r: set<RoleId>)
    ensures forall id :: id in r <==> id in roles && IsActiveRole(roles[id])
  {
    set id | id in roles && IsActiveRole(roles[id])
  }

  /** findActiveById: never a deleted role. */
  function FindActiveById(roles: RoleTable, id: RoleId): (r: Option<Role>)
    ensures r.Some? <==> id in roles && IsActiveRole(roles[id])
    ensures r.Some? ==> r.value == roles[id]
  {
    if id in roles && IsActiveRole(roles[id]) then Some(roles[id]) else None
  }

  /** findActiveByName: never a deleted role. */
  function FindActiveByName(roles: RoleTable, name: string): (r: Lookup<RoleId>)
    ensures r.Found? ==> r.key in roles && roles[r.key].name == Some(name) && IsActiveRole(roles[r.key])
    ensures r.Absent? <==> forall id :: id in roles && roles[id].name == Some(name) ==> !IsActiveRole(roles[id])
  {
    var s := set id | id in roles && roles[id].name == Some(name) && IsActiveRole(roles[id]);
    assert s == {} <==> forall id :: id in roles && roles[id].name == Some(name) ==> !IsActiveRole(roles[id]) by {
      if s != {} {
        var x :| x in s;
      } else {
        forall id | id in roles ensures id !in s { }
      }
    }
    Unique(s)
  }

  /** findAllById: the requested ids that exist; unknown ids are skipped. */
  function FindAllById(roles: RoleTable, ids: seq<RoleId>): (r: set<RoleId>)
    ensures forall id :: id in r <==> id in ids && id in roles
  {
    set id | id in ids && id in roles
  }
}
