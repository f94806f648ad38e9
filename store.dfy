/**
 * The persistent state behind the three repositories and the token
 * blacklist: one object whose tables the services read and update. Each
 * `Save...` is a JPA `save` (insert or replace by primary key) and each
 * `SoftDelete...` is the repository's `UPDATE ... SET isDeleted = true`.
 */
module Store {
  import opened Base
  import opened Entities
  import opened UserRepository
  import opened RoleRepository
  import opened ExpenseRepository

  /** JPA save of an expense: replaces the row with the same id, or appends. */
  function Upsert(expenses: ExpenseTable, e: Expense): (r: ExpenseTable)
    ensures FindById(expenses, e.id).None? ==> r == expenses + [e]
    ensures FindById(expenses, e.id).Some? ==> r == expenses[FindById(expenses, e.id).value := e]
    ensures |r| >= |expenses|
  {
    match FindById(expenses, e.id)
    case None => expenses + [e]
    case Some(i) => expenses[i := e]
  }

  /** The soft delete of an expense: marks every row with that id deleted. */
  function MarkDeleted(expenses: ExpenseTable, id: ExpenseId): (r: ExpenseTable)
    ensures |r| == |expenses|
    ensures forall i :: 0 <= i < |r| ==>
      r[i] == if expenses[i].id == id then expenses[i].(isDeleted := true) else expenses[i]
  {
    seq(|expenses|, i requires 0 <= i < |expenses| =>
      if expenses[i].id == id then expenses[i].(isDeleted := true) else expenses[i])
  }

  /** No two rows share a primary key. */
  predicate DistinctIds(expenses: ExpenseTable)
  {
    forall i, j :: 0 <= i < j < |expenses| ==> expenses[i].id != expenses[j].id
  }

  /** A row the database accepts: the currency fits its column and the users it references exist. */
  predicate Storable(e: Expense, users: UserTable)
  {
    |e.currency| <= CURRENCY_COLUMN_LENGTH
    && e.requestedBy in users
    && (e.approvedBy.Some? ==> e.approvedBy.value in users)
  }

  class Database {
    var users: UserTable
    var roles: RoleTable
    var expenses: ExpenseTable
    var blacklist: map<string, BlacklistedToken>

    /**
     * Primary keys agree with the rows they index, expense ids are unique,
     * every expense row satisfies its column and foreign-key constraints,
     * and a blacklist entry is keyed by its own token.
     */
    ghost predicate Valid()
      reads this
    {
      (forall id :: id in users ==> users[id].id == id)
      && (forall id :: id in roles ==> roles[id].id == Some(id))
      && DistinctIds(expenses)
      && (forall i :: 0 <= i < |expenses| ==> Storable(expenses[i], users))
      && (forall t :: t in blacklist ==> blacklist[t].token == t)
    }

    constructor()
      ensures Valid()
      ensures users == map[] && roles == map[] && expenses == [] && blacklist == map[]
    {
      users := map[];
      roles := map[];
      expenses := [];
      blacklist := map[];
    }

    /** userRepository.save: the row with the user's id becomes u. */
    method SaveUser(u: User)
      requires Valid()
      modifies this
      ensures Valid()
      ensures users == old(users)[u.id := u]
      ensures roles == old(roles) && expenses == old(expenses) && blacklist == old(blacklist)
    {
      users := users[u.id := u];
    }

    /** roleRepository.save: the row with key id becomes r. */
    method SaveRole(id: RoleId, r: Role)
      requires Valid() && r.id == Some(id)
      modifies this
      ensures Valid()
      ensures roles == old(roles)[id := r]
      ensures users == old(users) && expenses == old(expenses) && blacklist == old(blacklist)
    {
      roles := roles[id := r];
    }

    /**
     * expenseRepository.save: a row the database accepts is inserted or
     * replaces the row with its id; a currency longer than the column
     * is rejected and nothing changes.
     */
    method SaveExpense(e: Expense) returns (saved: bool)
      requires Valid()
      requires e.requestedBy in users && (e.approvedBy.Some? ==> e.approvedBy.value in users)
      modifies this
      ensures Valid()
      ensures saved <==> |e.currency| <= CURRENCY_COLUMN_LENGTH
      ensures expenses == if saved then Upsert(old(expenses), e) else old(expenses)
      ensures users == old(users) && roles == old(roles) && blacklist == old(blacklist)
    {
      if |e.currency| > CURRENCY_COLUMN_LENGTH {
        return false;
      }
      var before := expenses;
      expenses := Upsert(expenses, e);
      saved := true;
      match FindById(before, e.id)
      case None =>
        assert forall i :: 0 <= i < |before| ==> before[i].id != e.id;
      case Some(k) =>
        assert forall i :: 0 <= i < |before| && i != k ==> before[i].id != e.id;
    }

    /** userRepository.softDelete: flags the user deleted (audit columns are not modelled). */
    method SoftDeleteUser(id: UserId)
      requires Valid()
      modifies this
      ensures Valid()
      ensures users == if id in old(users) then old(users)[id := old(users)[id].(isDeleted := true)] else old(users)
      ensures roles == old(roles) && expenses == old(expenses) && blacklist == old(blacklist)
    {
      if id in users {
        users := users[id := users[id].(isDeleted := true)];
      }
    }

    /** roleRepository.softDelete: flags the role deleted. */
    method SoftDeleteRole(id: RoleId)
      requires Valid()
      modifies this
      ensures Valid()
      ensures roles == if id in old(roles) then old(roles)[id := old(roles)[id].(isDeleted := Some(true))] else old(roles)
      ensures users == old(users) && expenses == old(expenses) && blacklist == old(blacklist)
    {
      if id in roles {
        roles := roles[id := roles[id].(isDeleted := Some(true))];
      }
    }

    /** expenseRepository.softDelete: flags the expense deleted. */
    method SoftDeleteExpense(id: ExpenseId)
      requires Valid()
      modifies this
      ensures Valid()
      ensures expenses == MarkDeleted(old(expenses), id)
      ensures users == old(users) && roles == old(roles) && blacklist == old(blacklist)
    {
      expenses := MarkDeleted(expenses, id);
    }

    /** blacklistedTokenRepository.save: the record is stored under its token. */
    method SaveToken(b: BlacklistedToken)
      requires Valid()
      modifies this
      ensures Valid()
      ensures blacklist == old(blacklist)[b.token := b]
      ensures users == old(users) && roles == old(roles) && expenses == old(expenses)
    {
      blacklist := blacklist[b.token := b];
    }
  }
}
