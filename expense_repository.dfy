/**
 * The expense table's finders and aggregate queries, as functions over the
 * table (a sequence of rows, in insertion order). Date bounds that are null
 * are open, as `COALESCE(:bound, e.expenseDate)` makes them.
 */
module ExpenseRepository {
  import opened Base
  import opened Entities
  import opened Aggregate

  type ExpenseTable = seq<Expense>

  /** findById: the position of the row with that id (no deleted filter). */
  function FindById(expenses: ExpenseTable, id: ExpenseId): (r: Option<nat>)
    ensures r.Some? ==> r.value < |expenses| && expenses[r.value].id == id
    ensures r.Some? ==> forall i :: 0 <= i < r.value ==> expenses[i].id != id
    ensures r.None? <==> forall i :: 0 <= i < |expenses| ==> expenses[i].id != id
  {
    if expenses == [] then None
    else if expenses[0].id == id then Some(0)
    else match FindById(expenses[1..], id)
      case None => None
      case Some(k) => Some(k + 1)
  }

  /** findAllByRequestedByIdAndIsDeletedFalse: the owner's live expenses, in table order. */
  function FindAllByRequestedBy(expenses: ExpenseTable, owner: UserId): (r: seq<Expense>)
    ensures forall e :: e in r <==> e in expenses && e.requestedBy == owner && !e.isDeleted
    ensures |r| <= |expenses|
  {
    if expenses == [] then []
    else
      (if expenses[0].requestedBy == owner && !expenses[0].isDeleted then [expenses[0]] else [])
      + FindAllByRequestedBy(expenses[1..], owner)
  }

  /** `expenseDate BETWEEN COALESCE(from, expenseDate) AND COALESCE(to, expenseDate)`. */
  predicate InRange(d: int, from: Option<int>, to: Option<int>)
  {
    (from.None? || from.value <= d) && (to.None? || d <= to.value)
  }

  /** The row filter of findAllByFilters. */
  predicate MatchesFilters(e: Expense, status: Option<ExpenseStatus>, from: Option<int>, to: Option<int>)
  {
    !e.isDeleted && (status.None? || e.status == status.value) && InRange(e.expenseDate, from, to)
  }

  /** findAllByFilters: live expenses with the status (if given) dated within the bounds. */
  function FindAllByFilters(expenses: ExpenseTable, status: Option<ExpenseStatus>, from: Option<int>, to: Option<int>): (r: seq<Expense>)
    ensures forall e :: e in r <==> e in expenses && MatchesFilters(e, status, from, to)
    ensures |r| <= |expenses|
  {
    if expenses == [] then []
    else
      (if MatchesFilters(expenses[0], status, from, to) then [expenses[0]] else [])
      + FindAllByFilters(expenses[1..], status, from, to)
  }

  /** With no filter at all, findAllByFilters returns every live expense. */
  lemma {:induction false} NoFiltersKeepsAllLive(expenses: ExpenseTable)
    ensures (forall e :: e in expenses ==> !e.isDeleted) ==> FindAllByFilters(expenses, None, None, None) == expenses
  {
    if expenses != [] {
      NoFiltersKeepsAllLive(expenses[1..]);
      if forall e :: e in expenses ==> !e.isDeleted {
        assert forall e :: e in expenses[1..] ==> !e.isDeleted;
        assert [expenses[0]] + expenses[1..] == expenses;
      }
    }
  }

  /** The rows the aggregate reports count: live, APPROVED, dated within the bounds. */
  predicate Approved(e: Expense, from: Option<int>, to: Option<int>)
  {
    !e.isDeleted && e.status == APPROVED && InRange(e.expenseDate, from, to)
  }

  /** Total amount of every counted expense (a reference total, independent of grouping). */
  function ApprovedTotal(expenses: ExpenseTable, from: Option<int>, to: Option<int>): real
  {
    if expenses == [] then 0.0
    else
      (if Approved(expenses[0], from, to) then expenses[0].amount else 0.0)
      + ApprovedTotal(expenses[1..], from, to)
  }

  // ---------------------------------------------------------------- by currency

  /** A counted expense that also matches the currency restriction, if any. */
  predicate InCurrency(e: Expense, currency: Option<string>, from: Option<int>, to: Option<int>)
  {
    Approved(e, from, to) && (currency.None? || e.currency == currency.value)
  }

  /** The (currency, amount) rows counted, restricted to one currency when it is given. */
  function CurrencyRows(expenses: ExpenseTable, currency: Option<string>, from: Option<int>, to: Option<int>): seq<(string, real)>
  {
    if expenses == [] then []
    else
      var e := expenses[0];
      (if InCurrency(e, currency, from, to) then [(e.currency, e.amount)] else [])
        + CurrencyRows(expenses[1..], currency, from, to)
  }

  /** A row of the currency reports; the INR total is filled in by the service. */
  datatype CurrencySummary = CurrencySummary(currency: string, totalOriginalAmount: real, totalAmountInInr: Option<real>)

  function CurrencySummaries(g: seq<(string, real)>): (r: seq<CurrencySummary>)
    ensures |r| == |g|
    ensures forall i :: 0 <= i < |g| ==> r[i] == CurrencySummary(g[i].0, g[i].1, None)
  {
    seq(|g|, i requires 0 <= i < |g| => CurrencySummary(g[i].0, g[i].1, None))
  }

  /** The grouped (currency, total) rows. */
  function CurrencyGroups(expenses: ExpenseTable, currency: Option<string>, from: Option<int>, to: Option<int>): seq<(string, real)>
  {
    GroupSum(CurrencyRows(expenses, currency, from, to))
  }

  /** totalByCurrency: one row per currency, restricted to `currency` when non-null. */
  function TotalByCurrency(expenses: ExpenseTable, currency: Option<string>, from: Option<int>, to: Option<int>): seq<CurrencySummary>
  {
    CurrencySummaries(CurrencyGroups(expenses, currency, from, to))
  }

  /** groupByCurrency: the same query without the currency restriction. */
  function GroupByCurrency(expenses: ExpenseTable, from: Option<int>, to: Option<int>): seq<CurrencySummary>
  {
    CurrencySummaries(CurrencyGroups(expenses, None, from, to))
  }

  /** Sum of the original-currency totals of a report. */
  function ReportTotal(r: seq<CurrencySummary>): real
  {
    if r == [] then 0.0 else r[0].totalOriginalAmount + ReportTotal(r[1..])
  }

  /** Total of the counted expenses in currency c. */
  function CurrencyTotal(expenses: ExpenseTable, c: string, from: Option<int>, to: Option<int>): real
  {
    if expenses == [] then 0.0
    else
      (if Approved(expenses[0], from, to) && expenses[0].currency == c then expenses[0].amount else 0.0)
      + CurrencyTotal(expenses[1..], c, from, to)
  }

  lemma {:induction false} CurrencyRowsFacts(expenses: ExpenseTable, currency: Option<string>, from: Option<int>, to: Option<int>, c: string)
    ensures SumFor(CurrencyRows(expenses, currency, from, to), c)
      == if currency.None? || currency.value == c then CurrencyTotal(expenses, c, from, to) else 0.0
    ensures currency.None? ==> Sum(CurrencyRows(expenses, currency, from, to)) == ApprovedTotal(expenses, from, to)
    ensures c in Keys(CurrencyRows(expenses, currency, from, to)) <==>
      (currency.None? || currency.value == c) && exists e :: e in expenses && Approved(e, from, to) && e.currency == c
  {
    if expenses != [] {
      CurrencyRowsFacts(expenses[1..], currency, from, to, c);
      var e := expenses[0];
      var rows := CurrencyRows(expenses, currency, from, to);
      if InCurrency(e, currency, from, to) {
        assert rows[0] == (e.currency, e.amount);
        assert rows[1..] == CurrencyRows(expenses[1..], currency, from, to);
      } else {
        assert rows == CurrencyRows(expenses[1..], currency, from, to);
      }
      assert forall x :: x in expenses <==> x == e || x in expenses[1..];
    }
  }

  lemma {:induction false} ReportTotalOfSummaries(g: seq<(string, real)>)
    ensures ReportTotal(CurrencySummaries(g)) == Sum(g)
  {
    if g != [] {
      ReportTotalOfSummaries(g[1..]);
      assert CurrencySummaries(g)[1..] == CurrencySummaries(g[1..]);
    }
  }

  /** In the grouped currency rows no currency occurs twice and each total is the currency's total. */
  lemma CurrencyGroupsExact(expenses: ExpenseTable, currency: Option<string>, from: Option<int>, to: Option<int>, i: int)
    requires 0 <= i < |CurrencyGroups(expenses, currency, from, to)|
    ensures forall j :: 0 <= j < |CurrencyGroups(expenses, currency, from, to)| && j != i ==>
      CurrencyGroups(expenses, currency, from, to)[i].0 != CurrencyGroups(expenses, currency, from, to)[j].0
    ensures CurrencyGroups(expenses, currency, from, to)[i].1 == CurrencyTotal(expenses, CurrencyGroups(expenses, currency, from, to)[i].0, from, to)
    ensures currency.None? || CurrencyGroups(expenses, currency, from, to)[i].0 == currency.value
  {
    var rows := CurrencyRows(expenses, currency, from, to);
    var g := GroupSum(rows);
    GroupSumCorrect(rows);
    CurrencyRowsFacts(expenses, currency, from, to, g[i].0);
    KeysIndex(g, g[i].0);
  }

  /** Every currency with a counted expense (and matching the restriction) has a group. */
  lemma CurrencyGroupsComplete(expenses: ExpenseTable, currency: Option<string>, from: Option<int>, to: Option<int>)
    ensures forall e :: e in expenses && InCurrency(e, currency, from, to) ==>
      e.currency in Keys(CurrencyGroups(expenses, currency, from, to))
  {
    GroupSumCorrect(CurrencyRows(expenses, currency, from, to));
    forall e | e in expenses && InCurrency(e, currency, from, to) {
      CurrencyRowsFacts(expenses, currency, from, to, e.currency);
    }
  }

  /**
   * totalByCurrency is exact: no currency twice; only the requested
   * currency (when one is given); each row's total is that currency's
   * total; every currency with a counted expense has its row; the INR
   * column is left for the service.
   */
  lemma TotalByCurrencyCorrect(expenses: ExpenseTable, currency: Option<string>, from: Option<int>, to: Option<int>)
    ensures forall i, j :: 0 <= i < j < |TotalByCurrency(expenses, currency, from, to)| ==>
      TotalByCurrency(expenses, currency, from, to)[i].currency != TotalByCurrency(expenses, currency, from, to)[j].currency
    ensures forall i :: 0 <= i < |TotalByCurrency(expenses, currency, from, to)| ==>
      TotalByCurrency(expenses, currency, from, to)[i].totalOriginalAmount
        == CurrencyTotal(expenses, TotalByCurrency(expenses, currency, from, to)[i].currency, from, to)
    ensures forall i :: 0 <= i < |TotalByCurrency(expenses, currency, from, to)| ==>
      (currency.None? || TotalByCurrency(expenses, currency, from, to)[i].currency == currency.value)
      && TotalByCurrency(expenses, currency, from, to)[i].totalAmountInInr.None?
    ensures forall e :: e in expenses && InCurrency(e, currency, from, to) ==>
      exists i :: 0 <= i < |TotalByCurrency(expenses, currency, from, to)| && TotalByCurrency(expenses, currency, from, to)[i].currency == e.currency
  {
    var g := CurrencyGroups(expenses, currency, from, to);
    var r := TotalByCurrency(expenses, currency, from, to);
    assert |r| == |g|;
    forall i | 0 <= i < |r|
      ensures r[i].currency == g[i].0 && r[i].totalOriginalAmount == g[i].1 && r[i].totalAmountInInr.None?
      ensures r[i].totalOriginalAmount == CurrencyTotal(expenses, r[i].currency, from, to)
      ensures currency.None? || r[i].currency == currency.value
      ensures forall j :: 0 <= j < |r| && j != i ==> r[i].currency != r[j].currency
    {
      CurrencyGroupsExact(expenses, currency, from, to, i);
    }
    CurrencyGroupsComplete(expenses, currency, from, to);
    forall e | e in expenses && InCurrency(e, currency, from, to)
      ensures exists i :: 0 <= i < |r| && r[i].currency == e.currency
    {
      KeysIndex(g, e.currency);
      var i :| 0 <= i < |g| && g[i].0 == e.currency;
      assert r[i].currency == e.currency;
    }
  }

  /** The per-currency totals of groupByCurrency add up to the total of all counted expenses. */
  lemma GroupByCurrencyAddsUp(expenses: ExpenseTable, from: Option<int>, to: Option<int>)
    ensures ReportTotal(GroupByCurrency(expenses, from, to)) == ApprovedTotal(expenses, from, to)
    ensures GroupByCurrency(expenses, from, to) == TotalByCurrency(expenses, None, from, to)
  {
    var rows := CurrencyRows(expenses, None, from, to);
    GroupSumCorrect(rows);
    ReportTotalOfSummaries(GroupSum(rows));
    CurrencyRowsFacts(expenses, None, from, to, "");
  }

  // ---------------------------------------------------------------- per employee

  /** The grouping key of totalApprovedPerEmployee. */
  datatype EmployeeKey = EmployeeKey(employeeId: Option<string>, firstName: Option<string>, lastName: Option<string>, currency: string)

  /** A row of the per-employee report; the INR total is filled in by the service. */
  datatype EmployeeSummary = EmployeeSummary(
    employeeId: Option<string>, employeeName: Option<string>, currency: string,
    totalAmount: real, totalApprovedInInr: Option<real>)

  function KeyOf(e: Expense, u: User): EmployeeKey
  {
    EmployeeKey(u.employeeId, u.firstName, u.lastName, e.currency)
  }

  /** The (key, amount) rows counted, joined with the requesting user. */
  function EmployeeRows(expenses: ExpenseTable, users: map<UserId, User>, from: Option<int>, to: Option<int>): seq<(EmployeeKey, real)>
  {
    if expenses == [] then []
    else
      var e := expenses[0];
      (if Approved(e, from, to) && e.requestedBy in users then [(KeyOf(e, users[e.requestedBy]), e.amount)] else [])
        + EmployeeRows(expenses[1..], users, from, to)
  }

  /** SQL CONCAT(first, ' ', last): a null part makes the whole value null. */
  function SqlFullName(first: Option<string>, last: Option<string>): (r: Option<string>)
    ensures r.Some? <==> first.Some? && last.Some?
    ensures r.Some? ==> r.value == first.value + " " + last.value
  {
    if first.Some? && last.Some? then Some(first.value + " " + last.value) else None
  }

  function EmployeeSummaries(g: seq<(EmployeeKey, real)>): (r: seq<EmployeeSummary>)
    ensures |r| == |g|
    ensures forall i :: 0 <= i < |g| ==>
      r[i] == EmployeeSummary(g[i].0.employeeId, SqlFullName(g[i].0.firstName, g[i].0.lastName), g[i].0.currency, g[i].1, None)
  {
    seq(|g|, i requires 0 <= i < |g| =>
      EmployeeSummary(g[i].0.employeeId, SqlFullName(g[i].0.firstName, g[i].0.lastName), g[i].0.currency, g[i].1, None))
  }

  /** totalApprovedPerEmployee: one row per (employee id, first, last, currency). */
  function TotalApprovedPerEmployee(expenses: ExpenseTable, users: map<UserId, User>, from: Option<int>, to: Option<int>): seq<EmployeeSummary>
  {
    EmployeeSummaries(GroupSum(EmployeeRows(expenses, users, from, to)))
  }

  /** Total of the counted expenses whose requester and currency give key k. */
  function EmployeeTotal(expenses: ExpenseTable, users: map<UserId, User>, k: EmployeeKey, from: Option<int>, to: Option<int>): real
  {
    if expenses == [] then 0.0
    else
      var e := expenses[0];
      (if Approved(e, from, to) && e.requestedBy in users && KeyOf(e, users[e.requestedBy]) == k then e.amount else 0.0)
        + EmployeeTotal(expenses[1..], users, k, from, to)
  }

  lemma {:induction false} EmployeeRowsFacts(expenses: ExpenseTable, users: map<UserId, User>, from: Option<int>, to: Option<int>, k: EmployeeKey)
    ensures SumFor(EmployeeRows(expenses, users, from, to), k) == EmployeeTotal(expenses, users, k, from, to)
    ensures k in Keys(EmployeeRows(expenses, users, from, to)) <==>
      exists e :: e in expenses && Approved(e, from, to) && e.requestedBy in users && KeyOf(e, users[e.requestedBy]) == k
  {
    if expenses != [] {
      EmployeeRowsFacts(expenses[1..], users, from, to, k);
      var e := expenses[0];
      var rows := EmployeeRows(expenses, users, from, to);
      if Approved(e, from, to) && e.requestedBy in users {
        assert rows[0] == (KeyOf(e, users[e.requestedBy]), e.amount);
        assert rows[1..] == EmployeeRows(expenses[1..], users, from, to);
      } else {
        assert rows == EmployeeRows(expenses[1..], users, from, to);
      }
      assert forall x :: x in expenses <==> x == e || x in expenses[1..];
    }
  }

  /**
   * totalApprovedPerEmployee is exact: no group twice, each row's total is
   * the sum over that employee's counted expenses in that currency, each
   * name is "first last", and every counted expense has its group's row.
   */
  lemma TotalApprovedPerEmployeeCorrect(expenses: ExpenseTable, users: map<UserId, User>, from: Option<int>, to: Option<int>)
    ensures var r := TotalApprovedPerEmployee(expenses, users, from, to);
      var g := GroupSum(EmployeeRows(expenses, users, from, to));
      |r| == |g|
      && (forall i, j :: 0 <= i < j < |r| ==> g[i].0 != g[j].0)
      && (forall i :: 0 <= i < |r| ==>
            r[i].totalAmount == EmployeeTotal(expenses, users, g[i].0, from, to)
            && r[i].employeeId == g[i].0.employeeId && r[i].currency == g[i].0.currency
            && r[i].employeeName == SqlFullName(g[i].0.firstName, g[i].0.lastName))
      && (forall e :: e in expenses && Approved(e, from, to) && e.requestedBy in users ==>
            exists i :: 0 <= i < |r| && g[i].0 == KeyOf(e, users[e.requestedBy]))
  {
    var rows := EmployeeRows(expenses, users, from, to);
    var g := GroupSum(rows);
    GroupSumCorrect(rows);
    forall i | 0 <= i < |g| ensures g[i].1 == EmployeeTotal(expenses, users, g[i].0, from, to) {
      EmployeeRowsFacts(expenses, users, from, to, g[i].0);
    }
    forall e | e in expenses && Approved(e, from, to) && e.requestedBy in users
      ensures exists i :: 0 <= i < |g| && g[i].0 == KeyOf(e, users[e.requestedBy])
    {
      EmployeeRowsFacts(expenses, users, from, to, KeyOf(e, users[e.requestedBy]));
      KeysIndex(g, KeyOf(e, users[e.requestedBy]));
    }
  }
}
