/**
 * The conversion of an expense row into the response body sent to
 * clients. The INR amount is not part of the row; the service fills it in.
 */
module ExpenseMapper {
  import opened Base
  import opened Entities

  /** The response body of every expense endpoint. */
  datatype ExpenseResponse = ExpenseResponse(
    id: ExpenseId,
    title: string,
    description: Option<string>,
    expenseDate: int,
    amount: real,
    currency: string,
    amountInInr: Option<real>,
    receiptUrl: string,
    status: string,
    requestedBy: string,
    approvedByName: Option<string>,
    rejectionReason: Option<string>)

  /** The users an expense row refers to are all present. */
  predicate Resolvable(e: Expense, users: map<UserId, User>)
  {
    e.requestedBy in users && (e.approvedBy.Some? ==> e.approvedBy.value in users)
  }

  /**
   * toDto: null maps to null; the row's own columns are copied, the status
   * becomes its constant name, requester and approver become first name
   * followed directly by last name, and the INR amount is left unset.
   */
  function ToDto(e: Option<Expense>, users: map<UserId, User>): (r: Option<ExpenseResponse>)
    requires e.Some? ==> Resolvable(e.value, users)
    ensures r.Some? <==> e.Some?
    ensures r.Some? ==>
      r.value.id == e.value.id && r.value.title == e.value.title && r.value.description == e.value.description
      && r.value.expenseDate == e.value.expenseDate && r.value.amount == e.value.amount
      && r.value.currency == e.value.currency && r.value.receiptUrl == e.value.receiptUrl
      && r.value.rejectionReason == e.value.rejectionReason && r.value.amountInInr.None?
    ensures r.Some? ==> ParseStatus(r.value.status) == Some(e.value.status)
    ensures r.Some? ==>
      r.value.requestedBy == Concat(users[e.value.requestedBy].firstName, users[e.value.requestedBy].lastName)
    ensures r.Some? ==> (r.value.approvedByName.Some? <==> e.value.approvedBy.Some?)
    ensures r.Some? && e.value.approvedBy.Some? ==>
      r.value.approvedByName.value
        == Concat(users[e.value.approvedBy.value].firstName, users[e.value.approvedBy.value].lastName)
  {
    match e
    case None => None
    case Some(x) =>
      StatusNameRoundTrip(x.status, StatusName(x.status));
      var requester := users[x.requestedBy];
      Some(ExpenseResponse(
        x.id, x.title, x.description, x.expenseDate, x.amount, x.currency, None, x.receiptUrl,
        StatusName(x.status),
        Concat(requester.firstName, requester.lastName),
        if x.approvedBy.Some? then Some(Concat(users[x.approvedBy.value].firstName, users[x.approvedBy.value].lastName)) else None,
        x.rejectionReason))
  }

  /**
   * The names are joined without a separator, and a missing part prints
   * as "null": "Ann" and "Lee" give "AnnLee", a missing last name gives
   * "Annnull".
   */
  lemma NamesJoinedWithoutSeparator(e: Expense, users: map<UserId, User>)
    requires Resolvable(e, users)
    requires users[e.requestedBy].firstName == Some("Ann")
    ensures users[e.requestedBy].lastName == Some("Lee") ==> ToDto(Some(e), users).value.requestedBy == "AnnLee"
    ensures users[e.requestedBy].lastName.None? ==> ToDto(Some(e), users).value.requestedBy == "Annnull"
  {
  }

  /**
   * Two rows that differ only in their soft-delete flag give the same
   * response: the flag is never shown to clients.
   */
  lemma DeletedFlagHidden(e: Expense, users: map<UserId, User>)
    requires Resolvable(e, users)
    ensures ToDto(Some(e.(isDeleted := !e.isDeleted)), users) == ToDto(Some(e), users)
  {
  }
}
