/**
 * The user table's finders. Each is a filter over the table; a finder that
 * returns an Optional reports a second matching row as Duplicate, where
 * the persistence layer throws. Email comparison is exact (case-sensitive).
 */
module UserRepository {
  import opened Base
  import opened Entities

  type UserTable = map<UserId, User>

  /** findByEmail: no status filter. */
  function FindByEmail(users: UserTable, email: string): (r: Lookup<UserId>)
    ensures r.Found? ==> r.key in users && users[r.key].email == email
    ensures r.Absent? <==> forall id :: id in users ==> users[id].email != email
  {
    var s := set id | id in users && users[id].email == email;
    assert s == {} <==> forall id :: id in users ==> users[id].email != email by {
      if s != {} {
        var x :| x in s;
      } else {
        forall id | id in users ensures id !in s { }
      }
    }
    Unique(s)
  }

  /**
   * findActiveByEmail, and findByEmailWithRoles, whose filter is the same:
   * only an active, non-deleted user with that email is found.
   */
  function FindActiveByEmail(users: UserTable, email: string): (r: Lookup<UserId>)
    ensures r.Found? ==> r.key in users && users[r.key].email == email && IsLive(users[r.key])
    ensures r.Absent? <==> forall id :: id in users && users[id].email == email ==> !IsLive(users[id])
  {
    var s := set id | id in users && users[id].email == email && IsLive(users[id]);
    assert s == {} <==> forall id :: id in users && users[id].email == email ==> !IsLive(users[id]) by {
      if s != {} {
        var x :| x in s;
      } else {
        forall id | id in users ensures id !in s { }
      }
    }
    Unique(s)
  }

  /** findActiveById: the row with that key, if it is active and not deleted. */
  function FindActiveById(users: UserTable, id: UserId): (r: Option<User>)
    ensures r.Some? <==> id in users && IsLive(users[id])
    ensures r.Some? ==> r.value == users[id]
  {
    if id in users && IsLive(users[id]) then Some(users[id]) else None
  }

  /** findAllActiveUsers: exactly the active, non-deleted users. */
  function FindAllActiveUsers(users: UserTable): (r: set<UserId>)
    ensures forall id :: id in r <==> id in users && IsLive(users[id])
  {
    set id | id in users && IsLive(users[id])
  }

  /**
   * A user the login finder returns is enabled: a disabled or deleted user
   * is never found, so the login path reports it as not found.
   */
  lemma LoginFinderOnlyEnabled(users: UserTable, email: string)
    ensures FindActiveByEmail(users, email).Found? ==> IsEnabled(users[FindActiveByEmail(users, email).key])
    ensures (forall id :: id in users && users[id].email == email ==> !users[id].isActive)
      ==> FindActiveByEmail(users, email).Absent?
  {
  }

  /** The active finder only narrows findByEmail: absent there means absent here. */
  lemma ActiveFinderNarrows(users: UserTable, email: string)
    ensures FindByEmail(users, email).Absent? ==> FindActiveByEmail(users, email).Absent?
    ensures FindActiveByEmail(users, email).Found? ==> !FindByEmail(users, email).Absent?
  {
  }
}
