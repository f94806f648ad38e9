/**
 * The expense workflow: submission, update and deletion by the employee,
 * listings, approval or rejection by a finance administrator, and the two
 * reports. Amounts are shown in INR using the exchange-rate service, which
 * the model receives as two parameters: the currency list (`CurrencyFeed`)
 * and a quote function from an upper-case currency code to its INR rate
 * (`None` when the service fails for it).
 */
module ExpenseService {
  import opened Base
  import opened Entities
  import opened UserRepository
  import opened ExpenseRepository
  import opened Validation
  import opened ExpenseMapper
  import opened Store

  const INR: string := "INR"

  const EMAIL_REQUIRED: string := "Current user email is required"
  const AMOUNT_NOT_POSITIVE: string := "Expense amount must be greater than zero"
  const DATE_REQUIRED: string := "Expense date is required"
  const BLANK_CURRENCY: string := "Currency code must not be empty or null"
  const RATE_FAILURE: string := "Unable to fetch exchange rate for "
  const SUBMIT_FAILURE: string := "Internal server error while submitting expense"
  const APPROVE_FAILURE: string := "Error approving expense"
  /** What a finder that meets several rows throws; it reaches the client as the generic 500. */
  const NON_UNIQUE: string := "Query did not return a unique result"

  // ---------------------------------------------------------------- exchange rates

  /**
   * The currency list as the exchange-rate client hands it over: the
   * (code, name) entries in the order of the response (a response without
   * a list arrives as an empty one), an error status from the service, or
   * any other failure of the client.
   */
  datatype CurrencyFeed =
    | Listed(entries: seq<(string, string)>)
    | ApiError
    | Unreachable

  /** The codes of a currency list, in order. */
  function Codes(entries: seq<(string, string)>): (r: seq<string>)
    ensures |r| == |entries|
    ensures forall i :: 0 <= i < |r| ==> r[i] == entries[i].0
  {
    seq(|entries|, i requires 0 <= i < |entries| => entries[i].0)
  }

  /** The number of characters in all the parts together. */
  function TotalLength(parts: seq<string>): nat
  {
    if parts == [] then 0 else |parts[0]| + TotalLength(parts[1..])
  }

  /**
   * String.join: the parts in order with the separator between each two,
   * so the result starts with the first part and holds every character of
   * the parts plus one separator fewer than there are parts.
   */
  function Join(parts: seq<string>, sep: string): (r: string)
    ensures parts == [] ==> r == ""
    ensures |parts| == 1 ==> r == parts[0]
    ensures parts != [] ==> |r| == TotalLength(parts) + (|parts| - 1) * |sep|
    ensures parts != [] ==> |parts[0]| <= |r| && r[..|parts[0]|] == parts[0]
  {
    if parts == [] then "" else if |parts| == 1 then parts[0] else parts[0] + sep + Join(parts[1..], sep)
  }

  /**
   * getAllCurrencies: the list, unless it is empty or the client failed;
   * every failure reaches the caller as an external-service exception.
   */
  function GetAllCurrencies(feed: CurrencyFeed): (r: Result<seq<(string, string)>>)
    ensures r.Ok? <==> feed.Listed? && feed.entries != []
    ensures r.Ok? ==> r.value == feed.entries
    ensures r.Err? ==> r.error.ExternalServiceEx?
    ensures feed == Listed([]) ==> r == Err(ExternalServiceEx("No currencies returned from the exchange rate service"))
  {
    match feed
    case Listed(entries) =>
      if entries == [] then Err(ExternalServiceEx("No currencies returned from the exchange rate service"))
      else Ok(entries)
    case ApiError => Err(ExternalServiceEx("External API error while fetching currency list: "))
    case Unreachable => Err(ExternalServiceEx("Unable to fetch available currencies from external service"))
  }

  /**
   * validateCurrencyCode: a code with text whose upper-case form is one of
   * the listed codes. A blank code is refused before the list is fetched;
   * an unknown one is refused with the whole list of codes.
   */
  function ValidateCurrencyCode(code: Option<string>, feed: CurrencyFeed): (r: Outcome)
    ensures r == Pass <==>
      !NullOrBlank(code) && GetAllCurrencies(feed).Ok? && Upper(code.value) in Codes(GetAllCurrencies(feed).value)
    ensures NullOrBlank(code) ==> r == Fail(BadRequestEx(BLANK_CURRENCY))
    ensures !NullOrBlank(code) && GetAllCurrencies(feed).Err? ==> r == Fail(GetAllCurrencies(feed).error)
    ensures r.Fail? ==> r.error.BadRequestEx? || r.error.ExternalServiceEx?
  {
    if NullOrBlank(code) then Fail(BadRequestEx(BLANK_CURRENCY))
    else match GetAllCurrencies(feed)
      case Err(f) => Fail(f)
      case Ok(entries) =>
        var upper := Upper(code.value);
        if upper in Codes(entries) then Pass
        else Fail(BadRequestEx("Invalid currency code: " + upper + ". Please use one of: " + Join(Codes(entries), ", ")))
  }

  /** The check does not depend on the case the code is written in. */
  lemma CurrencyCheckIgnoresCase(code: string, feed: CurrencyFeed)
    ensures ValidateCurrencyCode(Some(code), feed) == ValidateCurrencyCode(Some(Upper(code)), feed)
  {
    UpperIdempotent(code);
  }

  /**
   * getRateToInr: INR in any case converts at 1 without asking the
   * service; any other code is quoted in upper case.
   */
  function RateToInr(quote: string -> Option<real>, currency: string): (r: Option<real>)
    ensures IsInr(currency) ==> r == Some(1.0)
    ensures !IsInr(currency) ==> r == quote(Upper(currency))
  {
    if IsInr(currency) then Some(1.0) else quote(Upper(currency))
  }

  /** The code is INR in some mix of cases, tested letter by letter. */
  predicate IsInr(currency: string)
  {
    |currency| == 3 && UpperChar(currency[0]) == 'I' && UpperChar(currency[1]) == 'N' && UpperChar(currency[2]) == 'R'
  }

  /** The letter-by-letter test is equalsIgnoreCase against "INR". */
  lemma IsInrIgnoringCase(currency: string)
    ensures IsInr(currency) <==> EqualsIgnoreCase(INR, currency)
  {
    assert Upper(INR) == INR by {
      assert forall k :: 0 <= k < 3 ==> Upper(INR)[k] == INR[k];
    }
    if IsInr(currency) {
      assert forall k :: 0 <= k < 3 ==> Upper(currency)[k] == INR[k];
    }
    if EqualsIgnoreCase(INR, currency) {
      assert Upper(currency)[0] == 'I' && Upper(currency)[1] == 'N' && Upper(currency)[2] == 'R';
    }
  }

  /** getRateToInr in the terms of equalsIgnoreCase. */
  lemma RateToInrCases(quote: string -> Option<real>, currency: string)
    ensures EqualsIgnoreCase(INR, currency) ==> RateToInr(quote, currency) == Some(1.0)
    ensures !EqualsIgnoreCase(INR, currency) ==> RateToInr(quote, currency) == quote(Upper(currency))
  {
    IsInrIgnoringCase(currency);
  }

  /**
   * The rate does not depend on the case of the code, so asking with the
   * request's own spelling (as the update does) gives the rate of the
   * stored upper-case code.
   */
  lemma RateIgnoresCase(quote: string -> Option<real>, currency: string)
    ensures RateToInr(quote, currency) == RateToInr(quote, Upper(currency))
  {
    UpperIdempotent(currency);
  }

  /** The response for a row with its INR amount filled in. */
  function WithInr(e: Expense, users: UserTable, rate: real): (r: ExpenseResponse)
    requires Resolvable(e, users)
    ensures r.amountInInr == Some(e.amount * rate)
    ensures r == ToDto(Some(e), users).value.(amountInInr := Some(e.amount * rate))
  {
    ToDto(Some(e), users).value.(amountInInr := Some(e.amount * rate))
  }

  // ---------------------------------------------------------------- submission

  /**
   * The row a submission stores: a new PENDING, undeleted expense of the
   * submitter, copied from the request with its currency upper-cased, a
   * positive amount, no approver and no rejection reason.
   */
  predicate SubmittedRow(e: Expense, users: UserTable, request: ExpenseRequest, submitterEmail: Option<string>, newId: ExpenseId)
  {
    e.id == newId && e.status == PENDING && !e.isDeleted && e.approvedBy.None? && e.rejectionReason.None?
    && submitterEmail.Some? && FindByEmail(users, submitterEmail.value) == Found(e.requestedBy)
    && request.title == Some(e.title) && request.description == e.description
    && request.expenseDate == Some(e.expenseDate) && request.amount == Some(e.amount) && e.amount > 0.0
    && request.currency.Some? && e.currency == Upper(request.currency.value)
    && request.receiptUrl == Some(e.receiptUrl) && |e.currency| <= CURRENCY_COLUMN_LENGTH
  }

  /**
   * submitExpense as a decision: the row to insert with its INR rate, or the
   * exception that leaves the method, after which the transaction is rolled
   * back. The checks run in the source's order: the submitter's email, the
   * submitter, the amount, the date, the currency, the builder's non-null
   * fields, the rate, and at commit the width of the currency column.
   * A missing amount, title or receipt URL, or a second user with the same
   * email, ends in the generic internal error.
   * A currency too wide for its column fails only when the transaction
   * commits, after the method's own catch; the persistence exception then
   * reaches the handler's generic 500 rather than the method's
   * RuntimeException, but the client sees the same answer, so the model
   * gives it as that RuntimeException.
   */
  function Submission(users: UserTable, request: ExpenseRequest, submitterEmail: Option<string>,
                      feed: CurrencyFeed, quote: string -> Option<real>, newId: ExpenseId): (r: Result<(Expense, real)>)
    ensures r.Ok? ==> SubmittedRow(r.value.0, users, request, submitterEmail, newId)
    ensures r.Ok? ==> ValidateCurrencyCode(request.currency, feed) == Pass && RateToInr(quote, r.value.0.currency) == Some(r.value.1)
    ensures (submitterEmail.Some? && FindByEmail(users, submitterEmail.value).Found?
             && request.title.Some? && request.expenseDate.Some? && request.amount.Some? && request.amount.value > 0.0
             && request.receiptUrl.Some? && ValidateCurrencyCode(request.currency, feed) == Pass
             && |request.currency.value| <= CURRENCY_COLUMN_LENGTH
             && RateToInr(quote, Upper(request.currency.value)).Some?) ==> r.Ok?
    ensures submitterEmail.None? ==> r == Err(BadRequestEx(EMAIL_REQUIRED))
    ensures submitterEmail.Some? && FindByEmail(users, submitterEmail.value).Absent? ==>
      r == Err(NotFoundEx("User not found: " + submitterEmail.value))
    ensures submitterEmail.Some? && FindByEmail(users, submitterEmail.value).Duplicate? ==> r == Err(RuntimeEx(SUBMIT_FAILURE))
    ensures (submitterEmail.Some? && FindByEmail(users, submitterEmail.value).Found?
             && request.amount.None?) ==> r == Err(RuntimeEx(SUBMIT_FAILURE))
    ensures (submitterEmail.Some? && FindByEmail(users, submitterEmail.value).Found?
             && request.amount.Some? && request.amount.value <= 0.0) ==> r == Err(BadRequestEx(AMOUNT_NOT_POSITIVE))
    ensures (submitterEmail.Some? && FindByEmail(users, submitterEmail.value).Found?
             && request.amount.Some? && request.amount.value > 0.0 && request.expenseDate.None?) ==> r == Err(BadRequestEx(DATE_REQUIRED))
    ensures (submitterEmail.Some? && FindByEmail(users, submitterEmail.value).Found?
             && request.amount.Some? && request.amount.value > 0.0 && request.expenseDate.Some?
             && ValidateCurrencyCode(request.currency, feed).Fail?) ==> r == Err(ValidateCurrencyCode(request.currency, feed).error)
    ensures (submitterEmail.Some? && FindByEmail(users, submitterEmail.value).Found?
             && request.amount.Some? && request.amount.value > 0.0 && request.expenseDate.Some?
             && ValidateCurrencyCode(request.currency, feed) == Pass
             && (request.title.None? || request.receiptUrl.None?)) ==> r == Err(RuntimeEx(SUBMIT_FAILURE))
    ensures (submitterEmail.Some? && FindByEmail(users, submitterEmail.value).Found?
             && request.amount.Some? && request.amount.value > 0.0 && request.expenseDate.Some?
             && ValidateCurrencyCode(request.currency, feed) == Pass && request.title.Some? && request.receiptUrl.Some?) ==>
      (RateToInr(quote, Upper(request.currency.value)).None? ==> r == Err(ExternalServiceEx(RATE_FAILURE + Upper(request.currency.value))))
      && (RateToInr(quote, Upper(request.currency.value)).Some? && |request.currency.value| > CURRENCY_COLUMN_LENGTH ==>
            r == Err(RuntimeEx(SUBMIT_FAILURE)))
    ensures r.Err? ==> r.error.BadRequestEx? || r.error.NotFoundEx? || r.error.ExternalServiceEx? || r.error.RuntimeEx?
  {
    if submitterEmail.None? then Err(BadRequestEx(EMAIL_REQUIRED))
    else match FindByEmail(users, submitterEmail.value)
      case Absent => Err(NotFoundEx("User not found: " + submitterEmail.value))
      case Duplicate => Err(RuntimeEx(SUBMIT_FAILURE))
      case Found(owner) =>
        if request.amount.None? then Err(RuntimeEx(SUBMIT_FAILURE))
        else if request.amount.value <= 0.0 then Err(BadRequestEx(AMOUNT_NOT_POSITIVE))
        else if request.expenseDate.None? then Err(BadRequestEx(DATE_REQUIRED))
        else match ValidateCurrencyCode(request.currency, feed)
          case Fail(f) => Err(f)
          case Pass =>
            if request.title.None? || request.receiptUrl.None? then Err(RuntimeEx(SUBMIT_FAILURE))
            else
              var e := Expense(newId, request.title.value, request.description, request.expenseDate.value,
                               request.amount.value, Upper(request.currency.value), request.receiptUrl.value,
                               PENDING, owner, None, None, false);
              match RateToInr(quote, e.currency)
              case None => Err(ExternalServiceEx(RATE_FAILURE + e.currency))
              case Some(rate) =>
                if |e.currency| > CURRENCY_COLUMN_LENGTH then Err(RuntimeEx(SUBMIT_FAILURE))
                else Ok((e, rate))
  }

  /**
   * submitExpense. The new row is inserted only when the whole method
   * succeeds; on any exception the transaction leaves the tables as they
   * were. The response shows the stored row with its INR amount.
   */
  method SubmitExpense(db: Database, request: ExpenseRequest, submitterEmail: Option<string>,
                       feed: CurrencyFeed, quote: string -> Option<real>, newId: ExpenseId)
    returns (r: Result<ExpenseResponse>)
    requires db.Valid()
    requires FindById(db.expenses, newId).None?
    modifies db
    ensures db.Valid()
    ensures var s := Submission(old(db.users), request, submitterEmail, feed, quote, newId);
      (r.Ok? <==> s.Ok?)
      && (r.Err? ==> r.error == s.error && db.expenses == old(db.expenses))
      && (r.Ok? ==> db.expenses == old(db.expenses) + [s.value.0]
                    && r.value == WithInr(s.value.0, old(db.users), s.value.1))
    ensures db.users == old(db.users) && db.roles == old(db.roles) && db.blacklist == old(db.blacklist)
  {
    var s := Submission(db.users, request, submitterEmail, feed, quote, newId);
    if s.Err? {
      return Err(s.error);
    }
    var (e, rate) := s.value;
    var saved := db.SaveExpense(e);
    assert saved;
    r := Ok(WithInr(e, db.users, rate));
  }

  // ---------------------------------------------------------------- update

  /**
   * validateUpdateRequest, in the source's order: a deleted expense, then a
   * settled one, then a caller who is not the requester (emails compared
   * ignoring case), then the amount, then the date.
   */
  function ValidateUpdateRequest(e: Expense, ownerEmail: string, request: ExpenseRequest, userEmail: Option<string>): (r: Outcome)
    ensures r == Pass <==>
      !e.isDeleted && e.status == PENDING && userEmail.Some? && EqualsIgnoreCase(ownerEmail, userEmail.value)
      && request.amount.Some? && request.amount.value > 0.0 && request.expenseDate.Some?
    ensures e.isDeleted ==> r == Fail(BadRequestEx("Expense already deleted"))
    ensures !e.isDeleted && e.status != PENDING ==> r == Fail(ConflictEx("Only pending expenses can be updated"))
    ensures (!e.isDeleted && e.status == PENDING && !(userEmail.Some? && EqualsIgnoreCase(ownerEmail, userEmail.value))) ==>
      r == Fail(AuthenticationFailedEx("You are not allowed to update this expense"))
    ensures (!e.isDeleted && e.status == PENDING && userEmail.Some? && EqualsIgnoreCase(ownerEmail, userEmail.value)
             && (request.amount.None? || request.amount.value <= 0.0)) ==> r == Fail(BadRequestEx(AMOUNT_NOT_POSITIVE))
    ensures (!e.isDeleted && e.status == PENDING && userEmail.Some? && EqualsIgnoreCase(ownerEmail, userEmail.value)
             && request.amount.Some? && request.amount.value > 0.0 && request.expenseDate.None?) ==> r == Fail(BadRequestEx(DATE_REQUIRED))
  {
    if e.isDeleted then Fail(BadRequestEx("Expense already deleted"))
    else if e.status != PENDING then Fail(ConflictEx("Only pending expenses can be updated"))
    else if !(userEmail.Some? && EqualsIgnoreCase(ownerEmail, userEmail.value)) then
      Fail(AuthenticationFailedEx("You are not allowed to update this expense"))
    else if request.amount.None? || request.amount.value <= 0.0 then Fail(BadRequestEx(AMOUNT_NOT_POSITIVE))
    else if request.expenseDate.None? then Fail(BadRequestEx(DATE_REQUIRED))
    else Pass
  }

  /**
   * The row after a successful update: the six request fields replace the
   * old ones (currency upper-cased); identity, status, requester, approver,
   * rejection reason and the deleted flag are kept.
   */
  function Updated(e: Expense, request: ExpenseRequest): (u: Expense)
    requires request.title.Some? && request.expenseDate.Some? && request.amount.Some?
    requires request.currency.Some? && request.receiptUrl.Some?
    ensures u.id == e.id && u.status == e.status && u.requestedBy == e.requestedBy
    ensures u.approvedBy == e.approvedBy && u.rejectionReason == e.rejectionReason && u.isDeleted == e.isDeleted
    ensures request.title == Some(u.title) && request.description == u.description
    ensures request.expenseDate == Some(u.expenseDate) && request.amount == Some(u.amount)
    ensures u.currency == Upper(request.currency.value) && request.receiptUrl == Some(u.receiptUrl)
  {
    e.(title := request.title.value, description := request.description, expenseDate := request.expenseDate.value,
       amount := request.amount.value, currency := Upper(request.currency.value), receiptUrl := request.receiptUrl.value)
  }

  /**
   * The checks an update passes before its row is saved: the request
   * checks, the currency, the setters' non-null title and receipt URL,
   * and the column width enforced by the save.
   */
  function UpdateCheck(e: Expense, ownerEmail: string, request: ExpenseRequest, userEmail: Option<string>, feed: CurrencyFeed): (r: Outcome)
    ensures r == Pass ==> ValidateUpdateRequest(e, ownerEmail, request, userEmail) == Pass
    ensures r == Pass ==> ValidateCurrencyCode(request.currency, feed) == Pass
    ensures r == Pass ==> request.title.Some? && request.receiptUrl.Some? && |request.currency.value| <= CURRENCY_COLUMN_LENGTH
    ensures ValidateUpdateRequest(e, ownerEmail, request, userEmail).Fail? ==> r == ValidateUpdateRequest(e, ownerEmail, request, userEmail)
    ensures ValidateUpdateRequest(e, ownerEmail, request, userEmail) == Pass && ValidateCurrencyCode(request.currency, feed).Fail? ==>
      r == ValidateCurrencyCode(request.currency, feed)
    ensures ValidateUpdateRequest(e, ownerEmail, request, userEmail) == Pass && ValidateCurrencyCode(request.currency, feed) == Pass ==>
      (r == Pass <==> request.title.Some? && request.receiptUrl.Some? && |request.currency.value| <= CURRENCY_COLUMN_LENGTH)
      && (request.title.None? ==> r == Fail(RuntimeEx("title is marked non-null but is null")))
      && (request.title.Some? && request.receiptUrl.None? ==> r == Fail(RuntimeEx("receiptUrl is marked non-null but is null")))
      && (request.title.Some? && request.receiptUrl.Some? && |request.currency.value| > CURRENCY_COLUMN_LENGTH ==>
            r == Fail(RuntimeEx("value too long for the currency column")))
  {
    match ValidateUpdateRequest(e, ownerEmail, request, userEmail)
    case Fail(f) => Fail(f)
    case Pass =>
      match ValidateCurrencyCode(request.currency, feed)
      case Fail(f) => Fail(f)
      case Pass =>
        if request.title.None? then Fail(RuntimeEx("title is marked non-null but is null"))
        else if request.receiptUrl.None? then Fail(RuntimeEx("receiptUrl is marked non-null but is null"))
        else if |request.currency.value| > CURRENCY_COLUMN_LENGTH then Fail(RuntimeEx("value too long for the currency column"))
        else Pass
  }

  /**
   * updateExpense. It runs without a transaction of its own: once the row
   * is saved it stays saved, even when the rate lookup that follows fails
   * and the caller gets an exception. The rate is asked for with the
   * request's own spelling of the code.
   */
  method UpdateExpense(db: Database, id: ExpenseId, request: ExpenseRequest, userEmail: Option<string>,
                       feed: CurrencyFeed, quote: string -> Option<real>) returns (r: Result<ExpenseResponse>)
    requires db.Valid()
    modifies db
    ensures db.Valid()
    ensures db.users == old(db.users) && db.roles == old(db.roles) && db.blacklist == old(db.blacklist)
    ensures FindById(old(db.expenses), id).None? ==>
      r == Err(NotFoundEx("Expense not found with id: " + DecimalText(id))) && db.expenses == old(db.expenses)
    ensures FindById(old(db.expenses), id).Some? ==>
      var i := FindById(old(db.expenses), id).value;
      var e := old(db.expenses)[i];
      var check := UpdateCheck(e, old(db.users)[e.requestedBy].email, request, userEmail, feed);
      (check.Fail? ==> r == Err(check.error) && db.expenses == old(db.expenses))
      && (check == Pass ==>
            db.expenses == old(db.expenses)[i := Updated(e, request)]
            && (r.Ok? <==> RateToInr(quote, request.currency.value).Some?)
            && (r.Ok? ==> r.value == WithInr(Updated(e, request), db.users, RateToInr(quote, request.currency.value).value))
            && (r.Err? ==> r.error == ExternalServiceEx(RATE_FAILURE + request.currency.value)))
  {
    var found := FindById(db.expenses, id);
    if found.None? {
      return Err(NotFoundEx("Expense not found with id: " + DecimalText(id)));
    }
    var e := db.expenses[found.value];
    assert Storable(e, db.users);
    var check := UpdateCheck(e, db.users[e.requestedBy].email, request, userEmail, feed);
    if check.Fail? {
      return Err(check.error);
    }
    var u := Updated(e, request);
    var saved := db.SaveExpense(u);
    assert saved;
    var rate := RateToInr(quote, request.currency.value);
    if rate.None? {
      return Err(ExternalServiceEx(RATE_FAILURE + request.currency.value));
    }
    r := Ok(WithInr(u, db.users, rate.value));
  }

  // ---------------------------------------------------------------- deletion

  /**
   * deleteExpense: refuses a missing id, an unknown expense, one already
   * deleted and one no longer PENDING; otherwise it soft-deletes the row
   * and changes nothing else.
   */
  method DeleteExpense(db: Database, id: Option<ExpenseId>) returns (r: Outcome)
    requires db.Valid()
    modifies db
    ensures db.Valid()
    ensures id.None? ==> r == Fail(BadRequestEx("Expense ID cannot be null"))
    ensures id.Some? && FindById(old(db.expenses), id.value).None? ==>
      r == Fail(NotFoundEx("Expense not found for id: " + DecimalText(id.value)))
    ensures id.Some? && FindById(old(db.expenses), id.value).Some? ==>
      var e := old(db.expenses)[FindById(old(db.expenses), id.value).value];
      (e.isDeleted ==> r == Fail(BadRequestEx("Expense already deleted for id: " + DecimalText(id.value))))
      && (!e.isDeleted && e.status != PENDING ==>
            r == Fail(BadRequestEx("Only expenses in 'PENDING' status can be deleted. But current status: " + StatusName(e.status))))
      && (!e.isDeleted && e.status == PENDING ==> r == Pass)
    ensures r == Pass ==> db.expenses == MarkDeleted(old(db.expenses), id.value)
    ensures r.Fail? ==> db.expenses == old(db.expenses)
    ensures db.users == old(db.users) && db.roles == old(db.roles) && db.blacklist == old(db.blacklist)
  {
    if id.None? {
      return Fail(BadRequestEx("Expense ID cannot be null"));
    }
    var found := FindById(db.expenses, id.value);
    if found.None? {
      return Fail(NotFoundEx("Expense not found for id: " + DecimalText(id.value)));
    }
    var e := db.expenses[found.value];
    if e.isDeleted {
      return Fail(BadRequestEx("Expense already deleted for id: " + DecimalText(id.value)));
    }
    if e.status != PENDING {
      return Fail(BadRequestEx("Only expenses in 'PENDING' status can be deleted. But current status: " + StatusName(e.status)));
    }
    db.SoftDeleteExpense(id.value);
    r := Pass;
  }

  /** A soft-deleted expense disappears from its owner's listing and from the administrator's. */
  lemma DeletedExpenseHidden(expenses: ExpenseTable, id: ExpenseId, owner: UserId,
                             status: Option<ExpenseStatus>, from: Option<int>, to: Option<int>)
    ensures forall e :: e in FindAllByRequestedBy(MarkDeleted(expenses, id), owner) ==> e.id != id
    ensures forall e :: e in FindAllByFilters(MarkDeleted(expenses, id), status, from, to) ==> e.id != id
  {
    var m := MarkDeleted(expenses, id);
    forall e | e in m && !e.isDeleted ensures e.id != id {
      var i :| 0 <= i < |m| && m[i] == e;
    }
  }

  // ---------------------------------------------------------------- listings

  /**
   * The page mapping of the listings: each row becomes its response with
   * the INR amount; the first row whose rate cannot be fetched ends the
   * listing with an external-service exception.
   */
  method WithInrAmounts(rows: seq<Expense>, users: UserTable, quote: string -> Option<real>)
    returns (r: Result<seq<ExpenseResponse>>)
    requires forall i :: 0 <= i < |rows| ==> Resolvable(rows[i], users)
    ensures r.Ok? <==> forall i :: 0 <= i < |rows| ==> RateToInr(quote, rows[i].currency).Some?
    ensures r.Ok? ==> |r.value| == |rows|
    ensures r.Ok? ==> forall i :: 0 <= i < |rows| ==> r.value[i] == WithInr(rows[i], users, RateToInr(quote, rows[i].currency).value)
    ensures r.Err? ==> exists i :: (0 <= i < |rows| && RateToInr(quote, rows[i].currency).None?
                                   && (forall j :: 0 <= j < i ==> RateToInr(quote, rows[j].currency).Some?)
                                   && r.error == ExternalServiceEx(RATE_FAILURE + rows[i].currency))
  {
    var out: seq<ExpenseResponse> := [];
    var i := 0;
    while i < |rows|
      invariant 0 <= i <= |rows|
      invariant |out| == i
      invariant forall j :: 0 <= j < i ==> RateToInr(quote, rows[j].currency).Some?
      invariant forall j :: 0 <= j < i ==> out[j] == WithInr(rows[j], users, RateToInr(quote, rows[j].currency).value)
    {
      var rate := RateToInr(quote, rows[i].currency);
      if rate.None? {
        return Err(ExternalServiceEx(RATE_FAILURE + rows[i].currency));
      }
      out := out + [WithInr(rows[i], users, rate.value)];
      i := i + 1;
    }
    r := Ok(out);
  }

  /**
   * getExpensesForCurrentUser: the caller's own undeleted expenses with
   * their INR amounts (paging is not modelled).
   */
  method GetExpensesForCurrentUser(db: Database, userEmail: Option<string>, quote: string -> Option<real>)
    returns (r: Result<seq<ExpenseResponse>>)
    requires db.Valid()
    ensures userEmail.None? ==> r == Err(BadRequestEx(EMAIL_REQUIRED))
    ensures userEmail.Some? && FindByEmail(db.users, userEmail.value).Absent? ==> r == Err(NotFoundEx("User not found: " + userEmail.value))
    ensures userEmail.Some? && FindByEmail(db.users, userEmail.value).Duplicate? ==> r == Err(RuntimeEx(NON_UNIQUE))
    ensures r.Ok? ==> userEmail.Some? && FindByEmail(db.users, userEmail.value).Found?
    ensures userEmail.Some? && FindByEmail(db.users, userEmail.value).Found? ==>
      var rows := FindAllByRequestedBy(db.expenses, FindByEmail(db.users, userEmail.value).key);
      (r.Ok? <==> forall i :: 0 <= i < |rows| ==> RateToInr(quote, rows[i].currency).Some?)
      && (r.Err? ==> exists i :: (0 <= i < |rows| && RateToInr(quote, rows[i].currency).None?
                                  && (forall j :: 0 <= j < i ==> RateToInr(quote, rows[j].currency).Some?)
                                  && r.error == ExternalServiceEx(RATE_FAILURE + rows[i].currency)))
    ensures r.Ok? ==>
      var rows := FindAllByRequestedBy(db.expenses, FindByEmail(db.users, userEmail.value).key);
      |r.value| == |rows| && forall i :: 0 <= i < |rows| ==>
        rows[i].requestedBy == FindByEmail(db.users, userEmail.value).key && !rows[i].isDeleted
        && RateToInr(quote, rows[i].currency).Some? && r.value[i] == WithInr(rows[i], db.users, RateToInr(quote, rows[i].currency).value)
  {
    if userEmail.None? {
      return Err(BadRequestEx(EMAIL_REQUIRED));
    }
    match FindByEmail(db.users, userEmail.value)
    case Absent => return Err(NotFoundEx("User not found: " + userEmail.value));
    case Duplicate => return Err(RuntimeEx(NON_UNIQUE));
    case Found(owner) =>
      var rows := FindAllByRequestedBy(db.expenses, owner);
      forall i | 0 <= i < |rows| ensures Resolvable(rows[i], db.users) && rows[i].requestedBy == owner && !rows[i].isDeleted {
        assert rows[i] in rows;
      }
      r := WithInrAmounts(rows, db.users, quote);
  }

  /**
   * getExpensesForAdmin's status filter: none when null or blank,
   * otherwise the constant named by the upper-cased text, which must
   * match a constant exactly (surrounding spaces included).
   */
  function ParseStatusFilter(status: Option<string>): (r: Result<Option<ExpenseStatus>>)
    ensures NullOrBlank(status) ==> r == Ok(None)
    ensures !NullOrBlank(status) ==> (r.Ok? <==> exists t :: Upper(status.value) == StatusName(t))
    ensures r.Ok? && r.value.Some? ==> Upper(status.value) == StatusName(r.value.value)
    ensures r.Err? ==> r.error == BadRequestEx("Invalid expense status: " + status.value)
  {
    if NullOrBlank(status) then Ok(None)
    else match ParseStatus(Upper(status.value))
      case None => Err(BadRequestEx("Invalid expense status: " + status.value))
      case Some(t) => Ok(Some(t))
  }

  /** Each constant's name, in any case, selects that constant. */
  lemma StatusFilterRoundTrip(t: ExpenseStatus, spelling: string)
    requires Upper(spelling) == StatusName(t)
    ensures ParseStatusFilter(Some(spelling)) == Ok(Some(t))
  {
    assert spelling != [] && !IsWhitespace(spelling[0]) by {
      assert |Upper(spelling)| > 0;
      assert UpperChar(spelling[0]) == StatusName(t)[0];
    }
    StatusNameRoundTrip(t, Upper(spelling));
  }

  /**
   * getExpensesForAdmin: the undeleted expenses matching the status and
   * the date range, with their INR amounts (paging is not modelled).
   */
  method GetExpensesForAdmin(db: Database, status: Option<string>, from: Option<int>, to: Option<int>,
                             quote: string -> Option<real>) returns (r: Result<seq<ExpenseResponse>>)
    requires db.Valid()
    ensures ParseStatusFilter(status).Err? ==> r == Err(ParseStatusFilter(status).error)
    ensures r.Ok? ==> ParseStatusFilter(status).Ok?
    ensures r.Ok? ==>
      var rows := FindAllByFilters(db.expenses, ParseStatusFilter(status).value, from, to);
      |r.value| == |rows| && forall i :: 0 <= i < |rows| ==>
        MatchesFilters(rows[i], ParseStatusFilter(status).value, from, to)
        && RateToInr(quote, rows[i].currency).Some? && r.value[i] == WithInr(rows[i], db.users, RateToInr(quote, rows[i].currency).value)
    ensures ParseStatusFilter(status).Ok? ==>
      (r.Ok? <==> forall e :: e in FindAllByFilters(db.expenses, ParseStatusFilter(status).value, from, to) ==>
                    RateToInr(quote, e.currency).Some?)
    ensures ParseStatusFilter(status).Ok? && r.Err? ==>
      var rows := FindAllByFilters(db.expenses, ParseStatusFilter(status).value, from, to);
      exists i :: (0 <= i < |rows| && RateToInr(quote, rows[i].currency).None?
                   && (forall j :: 0 <= j < i ==> RateToInr(quote, rows[j].currency).Some?)
                   && r.error == ExternalServiceEx(RATE_FAILURE + rows[i].currency))
  {
    var filter := ParseStatusFilter(status);
    if filter.Err? {
      return Err(filter.error);
    }
    var rows := FindAllByFilters(db.expenses, filter.value, from, to);
    forall i | 0 <= i < |rows| ensures Resolvable(rows[i], db.users) && MatchesFilters(rows[i], filter.value, from, to) {
      assert rows[i] in rows;
    }
    r := WithInrAmounts(rows, db.users, quote);
    if r.Err? {
      var i :| 0 <= i < |rows| && RateToInr(quote, rows[i].currency).None?;
      assert rows[i] in rows;
    }
  }

  /**
   * getExpenseById: any row with that id, deleted or not and whoever asks,
   * with its INR amount.
   */
  method GetExpenseById(db: Database, id: ExpenseId, quote: string -> Option<real>) returns (r: Result<ExpenseResponse>)
    requires db.Valid()
    ensures FindById(db.expenses, id).None? ==> r == Err(NotFoundEx("Expense not found: " + DecimalText(id)))
    ensures FindById(db.expenses, id).Some? ==>
      var e := db.expenses[FindById(db.expenses, id).value];
      (r.Ok? <==> RateToInr(quote, e.currency).Some?)
      && (r.Ok? ==> r.value == WithInr(e, db.users, RateToInr(quote, e.currency).value))
      && (r.Err? ==> r.error == ExternalServiceEx(RATE_FAILURE + e.currency))
  {
    var found := FindById(db.expenses, id);
    if found.None? {
      return Err(NotFoundEx("Expense not found: " + DecimalText(id)));
    }
    var e := db.expenses[found.value];
    assert Storable(e, db.users);
    var rate := RateToInr(quote, e.currency);
    if rate.None? {
      return Err(ExternalServiceEx(RATE_FAILURE + e.currency));
    }
    r := Ok(WithInr(e, db.users, rate.value));
  }

  // ---------------------------------------------------------------- approval

  /** The approval request body: the decision's text and an optional reason. */
  datatype ApprovalRequest = ApprovalRequest(status: Option<string>, reason: Option<string>)

  /**
   * approveOrRejectExpense as a decision: the position of the row and its
   * new value, or the exception that leaves the method. Not-found and
   * conflict exceptions leave as they are; any other failure (a missing
   * approver email, two users with that email) becomes the generic
   * approval error.
   */
  function Approval(expenses: ExpenseTable, users: UserTable, expenseId: ExpenseId,
                    approverEmail: Option<string>, decision: ApprovalRequest): (r: Result<(nat, Expense)>)
    requires forall i :: 0 <= i < |expenses| ==> expenses[i].requestedBy in users
    ensures r.Ok? ==> FindById(expenses, expenseId) == Some(r.value.0) && r.value.0 < |expenses|
    ensures r.Ok? ==>
      var old_ := expenses[r.value.0];
      var e := r.value.1;
      old_.status == PENDING && e.status in {APPROVED, REJECTED}
      && approverEmail.Some? && FindByEmail(users, approverEmail.value).Found?
      && e.approvedBy == Some(FindByEmail(users, approverEmail.value).key)
      && !EqualsIgnoreCase(users[FindByEmail(users, approverEmail.value).key].email, users[old_.requestedBy].email)
      && (e.status == APPROVED <==> decision.status.Some? && EqualsIgnoreCase("APPROVED", decision.status.value))
      && e.rejectionReason == (if e.status == REJECTED then decision.reason else old_.rejectionReason)
      && e == old_.(status := e.status, approvedBy := e.approvedBy, rejectionReason := e.rejectionReason)
    ensures FindById(expenses, expenseId).None? ==> r == Err(NotFoundEx("Expense not found: " + DecimalText(expenseId)))
    ensures FindById(expenses, expenseId).Some? && expenses[FindById(expenses, expenseId).value].status != PENDING ==>
      r == Err(ConflictEx("Expense already " + StatusName(expenses[FindById(expenses, expenseId).value].status)))
    ensures r.Err? ==> r.error.NotFoundEx? || r.error.ConflictEx? || r.error == ApplicationEx(APPROVE_FAILURE)
  {
    match FindById(expenses, expenseId)
    case None => Err(NotFoundEx("Expense not found: " + DecimalText(expenseId)))
    case Some(i) =>
      var e := expenses[i];
      if e.status != PENDING then Err(ConflictEx("Expense already " + StatusName(e.status)))
      else if approverEmail.None? then Err(ApplicationEx(APPROVE_FAILURE))
      else match FindByEmail(users, approverEmail.value)
        case Absent => Err(NotFoundEx("Approver not found: " + approverEmail.value))
        case Duplicate => Err(ApplicationEx(APPROVE_FAILURE))
        case Found(approver) =>
          if EqualsIgnoreCase(users[approver].email, users[e.requestedBy].email) then
            Err(ConflictEx("You cannot approve or reject your own expense request."))
          else if decision.status.Some? && EqualsIgnoreCase("APPROVED", decision.status.value) then
            Ok((i, e.(status := APPROVED, approvedBy := Some(approver))))
          else if decision.status.Some? && EqualsIgnoreCase("REJECTED", decision.status.value) then
            Ok((i, e.(status := REJECTED, rejectionReason := decision.reason, approvedBy := Some(approver))))
          else Err(ConflictEx("Invalid status value: " + Str(decision.status) + "Only can be "))
  }

  /**
   * Every outcome of approving or rejecting a PENDING expense: a missing
   * or ambiguous approver is the generic error, an unknown one is not
   * found, acting on one's own expense is a conflict, and otherwise the
   * call succeeds exactly for an "approved" or "rejected" decision in any
   * case, any other decision being a conflict.
   */
  lemma ApprovalOfPending(expenses: ExpenseTable, users: UserTable, expenseId: ExpenseId, i: nat,
                          approverEmail: Option<string>, decision: ApprovalRequest)
    requires forall j :: 0 <= j < |expenses| ==> expenses[j].requestedBy in users
    requires FindById(expenses, expenseId) == Some(i) && expenses[i].status == PENDING
    ensures approverEmail.None? ==> Approval(expenses, users, expenseId, approverEmail, decision) == Err(ApplicationEx(APPROVE_FAILURE))
    ensures approverEmail.Some? && FindByEmail(users, approverEmail.value).Absent? ==>
      Approval(expenses, users, expenseId, approverEmail, decision) == Err(NotFoundEx("Approver not found: " + approverEmail.value))
    ensures approverEmail.Some? && FindByEmail(users, approverEmail.value).Duplicate? ==>
      Approval(expenses, users, expenseId, approverEmail, decision) == Err(ApplicationEx(APPROVE_FAILURE))
    ensures approverEmail.Some? && FindByEmail(users, approverEmail.value).Found? ==>
      var r := Approval(expenses, users, expenseId, approverEmail, decision);
      var self := EqualsIgnoreCase(users[FindByEmail(users, approverEmail.value).key].email, users[expenses[i].requestedBy].email);
      (self ==> r == Err(ConflictEx("You cannot approve or reject your own expense request.")))
      && (!self ==>
            (r.Ok? <==> decision.status.Some? && (EqualsIgnoreCase("APPROVED", decision.status.value)
                                                  || EqualsIgnoreCase("REJECTED", decision.status.value)))
            && (r.Err? ==> r == Err(ConflictEx("Invalid status value: " + Str(decision.status) + "Only can be "))))
  {
  }

  /**
   * A decision is final: once approved or rejected, the same expense
   * cannot be acted on again, whoever asks and whatever they send.
   */
  lemma DecisionIsFinal(expenses: ExpenseTable, users: UserTable, expenseId: ExpenseId, approverEmail: Option<string>,
                        decision: ApprovalRequest, secondEmail: Option<string>, second: ApprovalRequest)
    requires forall i :: 0 <= i < |expenses| ==> expenses[i].requestedBy in users
    requires Approval(expenses, users, expenseId, approverEmail, decision).Ok?
    ensures
      var done := Approval(expenses, users, expenseId, approverEmail, decision).value;
      var after := expenses[done.0 := done.1];
      (forall j :: 0 <= j < |after| ==> after[j].requestedBy in users)
      && Approval(after, users, expenseId, secondEmail, second).Err?
      && Approval(after, users, expenseId, secondEmail, second).error.ConflictEx?
  {
    var done := Approval(expenses, users, expenseId, approverEmail, decision).value;
    var i, e := done.0, done.1;
    var after := expenses[i := e];
    assert forall j :: 0 <= j < |after| ==> after[j].requestedBy in users by {
      assert e.requestedBy == expenses[i].requestedBy;
    }
    assert FindById(after, expenseId) == Some(i) by {
      assert e.id == expenseId;
      FindAfterReplace(expenses, i, e);
    }
    assert after[i].status != PENDING;
    DecidedRowConflicts(after, users, expenseId, i, secondEmail, second);
  }

  /** Approval of a row that is no longer PENDING is a conflict. */
  lemma DecidedRowConflicts(expenses: ExpenseTable, users: UserTable, expenseId: ExpenseId, i: nat,
                            approverEmail: Option<string>, decision: ApprovalRequest)
    requires forall j :: 0 <= j < |expenses| ==> expenses[j].requestedBy in users
    requires i < |expenses| && FindById(expenses, expenseId) == Some(i) && expenses[i].status != PENDING
    ensures Approval(expenses, users, expenseId, approverEmail, decision).Err?
    ensures Approval(expenses, users, expenseId, approverEmail, decision).error.ConflictEx?
  {
  }

  lemma FindAfterReplace(expenses: ExpenseTable, i: nat, e: Expense)
    requires i < |expenses| && FindById(expenses, e.id) == Some(i)
    ensures FindById(expenses[i := e], e.id) == Some(i)
  {
    var after := expenses[i := e];
    assert forall j :: 0 <= j < i ==> after[j].id != e.id;
    assert after[i].id == e.id;
  }

  /**
   * approveOrRejectExpense. The row is replaced only on success; every
   * failure leaves the tables as they were.
   */
  method ApproveOrRejectExpense(db: Database, expenseId: ExpenseId, approverEmail: Option<string>, decision: ApprovalRequest)
    returns (r: Outcome)
    requires db.Valid()
    modifies db
    ensures db.Valid()
    ensures forall i :: 0 <= i < |old(db.expenses)| ==> old(db.expenses)[i].requestedBy in old(db.users)
    ensures var a := Approval(old(db.expenses), old(db.users), expenseId, approverEmail, decision);
      (r == Pass <==> a.Ok?)
      && (a.Ok? ==> db.expenses == old(db.expenses)[a.value.0 := a.value.1])
      && (a.Err? ==> r == Fail(a.error) && db.expenses == old(db.expenses))
    ensures db.users == old(db.users) && db.roles == old(db.roles) && db.blacklist == old(db.blacklist)
  {
    assert forall i :: 0 <= i < |db.expenses| ==> Storable(db.expenses[i], db.users);
    var a := Approval(db.expenses, db.users, expenseId, approverEmail, decision);
    if a.Err? {
      return Fail(a.error);
    }
    var (i, e) := a.value;
    assert Storable(db.expenses[i], db.users);
    var saved := db.SaveExpense(e);
    assert saved;
    r := Pass;
  }

  // ---------------------------------------------------------------- reports

  /** A per-employee row with its INR total. */
  function EmployeeInInr(s: EmployeeSummary, rate: real): (r: EmployeeSummary)
    ensures r.totalApprovedInInr == Some(s.totalAmount * rate)
    ensures r.(totalApprovedInInr := s.totalApprovedInInr) == s
  {
    s.(totalApprovedInInr := Some(s.totalAmount * rate))
  }

  /** A per-currency row with its INR total. */
  function CurrencyInInr(s: CurrencySummary, rate: real): (r: CurrencySummary)
    ensures r.totalAmountInInr == Some(s.totalOriginalAmount * rate)
    ensures r.(totalAmountInInr := s.totalAmountInInr) == s
  {
    s.(totalAmountInInr := Some(s.totalOriginalAmount * rate))
  }

  /**
   * reportTotalApprovedPerEmployee: the repository's rows in their order,
   * each with its total converted to INR; the first row whose rate cannot
   * be fetched ends the report with an external-service exception.
   */
  method ReportTotalApprovedPerEmployee(db: Database, from: Option<int>, to: Option<int>, quote: string -> Option<real>)
    returns (r: Result<seq<EmployeeSummary>>)
    ensures var rows := TotalApprovedPerEmployee(db.expenses, db.users, from, to);
      (r.Ok? <==> forall i :: 0 <= i < |rows| ==> RateToInr(quote, rows[i].currency).Some?)
      && (r.Ok? ==> |r.value| == |rows| && forall i :: 0 <= i < |rows| ==>
            RateToInr(quote, rows[i].currency).Some?
            && r.value[i] == EmployeeInInr(rows[i], RateToInr(quote, rows[i].currency).value))
      && (r.Err? ==> exists i :: (0 <= i < |rows| && RateToInr(quote, rows[i].currency).None?
                                  && (forall j :: 0 <= j < i ==> RateToInr(quote, rows[j].currency).Some?)
                                  && r.error == ExternalServiceEx(RATE_FAILURE + rows[i].currency)))
  {
    var rows := TotalApprovedPerEmployee(db.expenses, db.users, from, to);
    var out: seq<EmployeeSummary> := [];
    var i := 0;
    while i < |rows|
      invariant 0 <= i <= |rows|
      invariant |out| == i
      invariant forall j :: 0 <= j < i ==> RateToInr(quote, rows[j].currency).Some?
      invariant forall j :: 0 <= j < i ==>
        out[j] == EmployeeInInr(rows[j], RateToInr(quote, rows[j].currency).value)
    {
      var rate := RateToInr(quote, rows[i].currency);
      if rate.None? {
        return Err(ExternalServiceEx(RATE_FAILURE + rows[i].currency));
      }
      out := out + [EmployeeInInr(rows[i], rate.value)];
      i := i + 1;
    }
    r := Ok(out);
  }

  /** Every row's currency has an INR rate. */
  predicate AllQuoted(quote: string -> Option<real>, rows: seq<CurrencySummary>)
  {
    forall i :: 0 <= i < |rows| ==> RateToInr(quote, rows[i].currency).Some?
  }

  /**
   * reportTotalByCurrency: the currency is validated first (so a missing
   * one is refused and never reaches the query as "all currencies"); then
   * the total of that currency, converted to INR.
   */
  method ReportTotalByCurrency(db: Database, currency: Option<string>, from: Option<int>, to: Option<int>,
                               feed: CurrencyFeed, quote: string -> Option<real>) returns (r: Result<seq<CurrencySummary>>)
    ensures ValidateCurrencyCode(currency, feed).Fail? ==> r == Err(ValidateCurrencyCode(currency, feed).error)
    ensures r.Ok? ==> ValidateCurrencyCode(currency, feed) == Pass
    ensures r.Ok? ==>
      var rows := TotalByCurrency(db.expenses, Some(Upper(currency.value)), from, to);
      |r.value| == |rows| && forall i :: 0 <= i < |rows| ==>
        RateToInr(quote, rows[i].currency).Some?
        && r.value[i] == CurrencyInInr(rows[i], RateToInr(quote, rows[i].currency).value)
    ensures ValidateCurrencyCode(currency, feed) == Pass ==>
      (r.Ok? <==> AllQuoted(quote, TotalByCurrency(db.expenses, Some(Upper(currency.value)), from, to)))
    ensures ValidateCurrencyCode(currency, feed) == Pass && r.Err? ==>
      var rows := TotalByCurrency(db.expenses, Some(Upper(currency.value)), from, to);
      exists i :: (0 <= i < |rows| && RateToInr(quote, rows[i].currency).None?
                   && (forall j :: 0 <= j < i ==> RateToInr(quote, rows[j].currency).Some?)
                   && r.error == ExternalServiceEx(RATE_FAILURE + rows[i].currency))
  {
    var check := ValidateCurrencyCode(currency, feed);
    if check.Fail? {
      return Err(check.error);
    }
    var rows := TotalByCurrency(db.expenses, Some(Upper(currency.value)), from, to);
    r := CurrencyRowsInInr(rows, quote);
  }

  /**
   * The conversion step of reportTotalByCurrency: each row gains its INR
   * total; the first row whose rate cannot be fetched ends the report.
   */
  method CurrencyRowsInInr(rows: seq<CurrencySummary>, quote: string -> Option<real>)
    returns (r: Result<seq<CurrencySummary>>)
    ensures r.Ok? <==> AllQuoted(quote, rows)
    ensures r.Ok? ==> |r.value| == |rows| && forall i :: 0 <= i < |rows| ==>
      RateToInr(quote, rows[i].currency).Some?
      && r.value[i] == CurrencyInInr(rows[i], RateToInr(quote, rows[i].currency).value)
    ensures r.Err? ==> exists i :: (0 <= i < |rows| && RateToInr(quote, rows[i].currency).None?
                                   && (forall j :: 0 <= j < i ==> RateToInr(quote, rows[j].currency).Some?)
                                   && r.error == ExternalServiceEx(RATE_FAILURE + rows[i].currency))
  {
    var out: seq<CurrencySummary> := [];
    var i := 0;
    while i < |rows|
      invariant 0 <= i <= |rows|
      invariant |out| == i
      invariant forall j :: 0 <= j < i ==> RateToInr(quote, rows[j].currency).Some?
      invariant forall j :: 0 <= j < i ==>
        out[j] == CurrencyInInr(rows[j], RateToInr(quote, rows[j].currency).value)
    {
      var rate := RateToInr(quote, rows[i].currency);
      if rate.None? {
        return Err(ExternalServiceEx(RATE_FAILURE + rows[i].currency));
      }
      out := out + [CurrencyInInr(rows[i], rate.value)];
      i := i + 1;
    }
    r := Ok(out);
  }

  /**
   * The currency report holds only the currency asked for, never twice,
   * and its total is the sum of that currency's approved, undeleted
   * expenses in the range.
   */
  lemma CurrencyReportTotals(expenses: ExpenseTable, code: string, from: Option<int>, to: Option<int>)
    ensures var rows := TotalByCurrency(expenses, Some(Upper(code)), from, to);
      (forall i, j :: 0 <= i < j < |rows| ==> rows[i].currency != rows[j].currency)
      && forall i :: 0 <= i < |rows| ==>
           rows[i].currency == Upper(code) && rows[i].totalOriginalAmount == CurrencyTotal(expenses, Upper(code), from, to)
  {
    TotalByCurrencyCorrect(expenses, Some(Upper(code)), from, to);
  }
}
