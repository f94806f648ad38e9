/**
 * The authorization table of the security filter chain. Request paths are
 * sequences of segments; a pattern segment `*` matches any one segment.
 * Rules are tried in declaration order and the first rule with a matching
 * pattern decides; a request no rule matches needs only to be
 * authenticated. An anonymous request that is refused gets 401, a signed-in
 * one without the authority gets 403 with the body "Access Denied!".
 */
module SecurityConfig {
  import opened Base
  import opened Entities

  datatype Segment = Lit(text: string) | Star

  type Pattern = seq<Segment>
  type Path = seq<string>

  /** A pattern matches a path of the same length, segment by segment. */
  predicate Matches(p: Pattern, path: Path)
  {
    |p| == |path| && forall i :: 0 <= i < |p| ==> p[i].Lit? ==> p[i].text == path[i]
  }

  /** What a rule demands of the requester. */
  datatype Access =
    | PermitAll
    | HasAuthority(authority: string)
    | HasAnyAuthority(authorities: set<string>)
    | Authenticated

  /** `requestMatchers(patterns...).<access>`. */
  datatype Rule = Rule(patterns: seq<Pattern>, access: Access)

  /** Some pattern of the list matches the path. */
  predicate AnyMatches(patterns: seq<Pattern>, path: Path)
  {
    patterns != [] && (Matches(patterns[0], path) || AnyMatches(patterns[1..], path))
  }

  lemma {:induction false} NoneMatches(patterns: seq<Pattern>, path: Path)
    requires forall k :: 0 <= k < |patterns| ==> !Matches(patterns[k], path)
    ensures !AnyMatches(patterns, path)
  {
    if patterns != [] {
      assert forall k :: 0 <= k < |patterns| - 1 ==> patterns[1..][k] == patterns[k + 1];
      NoneMatches(patterns[1..], path);
    }
  }

  lemma {:induction false} OneMatches(patterns: seq<Pattern>, k: nat, path: Path)
    requires k < |patterns| && Matches(patterns[k], path)
    ensures AnyMatches(patterns, path)
  {
    if k > 0 {
      assert patterns[1..][k - 1] == patterns[k];
      OneMatches(patterns[1..], k - 1, path);
    }
  }

  predicate RuleMatches(r: Rule, path: Path)
  {
    AnyMatches(r.patterns, path)
  }

  /** Registration, login and logout: open to everyone. */
  const PUBLIC_RULE: Rule :=
    Rule([[Lit("users"), Lit("register")], [Lit("auth"), Lit("login")], [Lit("auth"), Lit("logout")]], PermitAll)

  /** User and role administration, "users/{id}/delete" listed twice as in the source. */
  const SUPER_ADMIN_RULE: Rule :=
    Rule([[Lit("users"), Lit("all")],
          [Lit("users"), Star, Lit("reset-password")],
          [Lit("users"), Star, Lit("delete")], [Lit("users"), Lit("create")],
          [Lit("users"), Star, Lit("delete")], [Lit("users"), Star],
          [Lit("users"), Lit("email"), Star], [Lit("roles"), Lit("create")],
          [Lit("roles"), Lit("all")], [Lit("roles"), Star], [Lit("roles"), Lit("name"), Star],
          [Lit("roles"), Lit("assign"), Star]],
         HasAuthority(SUPER_ADMIN_ROLE))

  /** Approval, the all-expenses listing and the reports. */
  const FINANCE_RULE: Rule :=
    Rule([[Lit("expenses"), Star, Lit("action")], [Lit("expenses"), Lit("all")],
          [Lit("expenses"), Lit("report"), Lit("approved-per-employee")],
          [Lit("expenses"), Lit("report"), Lit("by-currency")]],
         HasAuthority(FINANCE_ADMIN_ROLE))

  const ANY_ROLE: set<string> := {EMPLOYEE_ROLE, FINANCE_ADMIN_ROLE, SUPER_ADMIN_ROLE}

  /** Password change and the employee's own expenses. */
  const ANY_ROLE_RULE: Rule :=
    Rule([[Lit("users"), Lit("change-password")], [Lit("expenses"), Lit("create")],
          [Lit("expenses"), Star], [Lit("expenses"), Lit("update")], [Lit("expenses"), Lit("currencies")],
          [Lit("expenses"), Star, Lit("delete")]],
         HasAnyAuthority(ANY_ROLE))

  /** The rule table as declared, in order; any other request needs only authentication. */
  const RULES: seq<Rule> := [PUBLIC_RULE, SUPER_ADMIN_RULE, FINANCE_RULE, ANY_ROLE_RULE]

  /** None of the first n rules matches the path. */
  predicate NoEarlierMatch(rules: seq<Rule>, n: nat, path: Path)
    requires n <= |rules|
  {
    forall j :: 0 <= j < n ==> !RuleMatches(rules[j], path)
  }

  /** The access demanded of a path: that of the first matching rule, else authentication. */
  function AccessFor(rules: seq<Rule>, path: Path): (a: Access)
    ensures (forall i :: 0 <= i < |rules| ==> !RuleMatches(rules[i], path)) ==> a == Authenticated
    ensures forall i :: 0 <= i < |rules| && RuleMatches(rules[i], path) && NoEarlierMatch(rules, i, path) ==>
                         a == rules[i].access
  {
    if rules == [] then Authenticated
    else if RuleMatches(rules[0], path) then rules[0].access
    else
      var a := AccessFor(rules[1..], path);
      assert forall i :: 1 <= i < |rules| ==> rules[1..][i - 1] == rules[i];
      a
  }

  /** The answer to a request. */
  datatype Verdict = Allow | Unauthorized401 | Forbidden403(body: string)

  const ACCESS_DENIED: string := "Access Denied!"

  /**
   * The decision for a request, given the authorities of its
   * authentication (None for an anonymous request).
   */
  function Authorize(rules: seq<Rule>, path: Path, authorities: Option<set<string>>): (v: Verdict)
    ensures AccessFor(rules, path) == PermitAll ==> v == Allow
    ensures AccessFor(rules, path) != PermitAll && authorities.None? ==> v == Unauthorized401
    ensures v.Forbidden403? ==> v.body == ACCESS_DENIED && authorities.Some?
    ensures authorities.Some? && AccessFor(rules, path).HasAuthority? ==>
      (v == Allow <==> AccessFor(rules, path).authority in authorities.value)
    ensures authorities.Some? && AccessFor(rules, path).HasAnyAuthority? ==>
      (v == Allow <==> AccessFor(rules, path).authorities * authorities.value != {})
    ensures authorities.Some? && AccessFor(rules, path) == Authenticated ==> v == Allow
  {
    match AccessFor(rules, path)
    case PermitAll => Allow
    case HasAuthority(a) =>
      if authorities.None? then Unauthorized401
      else if a in authorities.value then Allow
      else Forbidden403(ACCESS_DENIED)
    case HasAnyAuthority(s) =>
      if authorities.None? then Unauthorized401
      else if s * authorities.value != {} then Allow
      else Forbidden403(ACCESS_DENIED)
    case Authenticated =>
      if authorities.None? then Unauthorized401 else Allow
  }

  /** A pattern of two literal segments matches its own spelling and nothing else. */
  lemma LiteralPattern(a: string, b: string, path: Path)
    ensures Matches([Lit(a), Lit(b)], path) <==> path == [a, b]
  {
    if Matches([Lit(a), Lit(b)], path) {
      assert path[0] == a && path[1] == b;
    }
  }

  /** A path that starts with a word no pattern of the list starts with matches none of them. */
  lemma FirstWordMismatch(patterns: seq<Pattern>, path: Path)
    requires path != []
    requires forall k :: 0 <= k < |patterns| ==> patterns[k] != [] && patterns[k][0].Lit? && patterns[k][0].text != path[0]
    ensures !AnyMatches(patterns, path)
  {
    NoneMatches(patterns, path);
  }

  /** Only the three public paths match the public rule. */
  lemma PublicRuleExactly(path: Path)
    ensures RuleMatches(PUBLIC_RULE, path) <==>
      path == ["users", "register"] || path == ["auth", "login"] || path == ["auth", "logout"]
  {
    var ps := PUBLIC_RULE.patterns;
    LiteralPattern("users", "register", path);
    LiteralPattern("auth", "login", path);
    LiteralPattern("auth", "logout", path);
    if path == ["users", "register"] { OneMatches(ps, 0, path); }
    else if path == ["auth", "login"] { OneMatches(ps, 1, path); }
    else if path == ["auth", "logout"] { OneMatches(ps, 2, path); }
    else { NoneMatches(ps, path); }
  }

  /** Registration, login and logout are open to everyone, signed in or not. */
  lemma PublicEndpoints(authorities: Option<set<string>>)
    ensures Authorize(RULES, ["users", "register"], authorities) == Allow
    ensures Authorize(RULES, ["auth", "login"], authorities) == Allow
    ensures Authorize(RULES, ["auth", "logout"], authorities) == Allow
  {
    PublicRuleExactly(["users", "register"]);
    PublicRuleExactly(["auth", "login"]);
    PublicRuleExactly(["auth", "logout"]);
  }

  /** Every path outside the three public ones turns an anonymous request away with 401. */
  lemma AnonymousNeedsAuthentication(path: Path)
    requires path != ["users", "register"] && path != ["auth", "login"] && path != ["auth", "logout"]
    ensures Authorize(RULES, path, None) == Unauthorized401
  {
    PublicRuleExactly(path);
    assert AccessFor(RULES, path) != PermitAll;
  }

  /** The expense approval listing is for finance administrators only. */
  lemma ExpenseListingFinanceOnly(path: Path, authorities: set<string>)
    requires |path| == 2 && path[0] == "expenses" && path[1] == "all"
    ensures Authorize(RULES, path, Some(authorities)) == Allow <==> FINANCE_ADMIN_ROLE in authorities
  {
    PublicRuleExactly(path);
    FirstWordMismatch(SUPER_ADMIN_RULE.patterns, path);
    assert Matches(FINANCE_RULE.patterns[1], path);
    OneMatches(FINANCE_RULE.patterns, 1, path);
    assert RULES[0] == PUBLIC_RULE && RULES[1] == SUPER_ADMIN_RULE && RULES[2] == FINANCE_RULE;
    assert forall j :: 0 <= j < 2 ==> !RuleMatches(RULES[j], path);
  }

  /** A user's own expense paths accept any of the three roles. */
  lemma OwnExpensesAnyRole(id: string, authorities: set<string>)
    requires id != "all"
    ensures Authorize(RULES, ["expenses", id], Some(authorities)) == Allow <==> ANY_ROLE * authorities != {}
  {
    var path: Path := ["expenses", id];
    PublicRuleExactly(path);
    FirstWordMismatch(SUPER_ADMIN_RULE.patterns, path);
    forall k | 0 <= k < |FINANCE_RULE.patterns|
      ensures !Matches(FINANCE_RULE.patterns[k], path)
    {
      if k == 1 {
        assert FINANCE_RULE.patterns[k][1] == Lit("all");
      }
    }
    NoneMatches(FINANCE_RULE.patterns, path);
    assert Matches(ANY_ROLE_RULE.patterns[2], path);
    OneMatches(ANY_ROLE_RULE.patterns, 2, path);
    assert RULES[0] == PUBLIC_RULE && RULES[1] == SUPER_ADMIN_RULE && RULES[2] == FINANCE_RULE && RULES[3] == ANY_ROLE_RULE;
    assert forall j :: 0 <= j < 3 ==> !RuleMatches(RULES[j], path);
  }

  /**
   * As declared, the administrator rule's pattern for "users/{any}" comes
   * before the any-role rule for "users/change-password", so an employee
   * or a finance administrator changing their own password is refused
   * with 403.
   */
  lemma ChangePasswordShadowed(authorities: set<string>)
    ensures Authorize(RULES, ["users", "change-password"], Some(authorities)) == Allow <==> SUPER_ADMIN_ROLE in authorities
    ensures Authorize(RULES, ["users", "change-password"], Some({EMPLOYEE_ROLE})) == Forbidden403(ACCESS_DENIED)
  {
    var path: Path := ["users", "change-password"];
    PublicRuleExactly(path);
    assert Matches(SUPER_ADMIN_RULE.patterns[5], path);
    OneMatches(SUPER_ADMIN_RULE.patterns, 5, path);
    assert AccessFor(RULES, path) == SUPER_ADMIN_RULE.access;
  }

  /** The change-password rule alone. */
  const CHANGE_PASSWORD_RULE: Rule := Rule([[Lit("users"), Lit("change-password")]], HasAnyAuthority(ANY_ROLE))

  /**
   * The table with the change-password rule placed before the
   * administrator rule, so that the any-role rule for it is reached.
   */
  const CORRECTED_RULES: seq<Rule> := [PUBLIC_RULE, CHANGE_PASSWORD_RULE, SUPER_ADMIN_RULE, FINANCE_RULE, ANY_ROLE_RULE]

  /** With the corrected table every role can change its own password. */
  lemma CorrectedChangePassword(authorities: set<string>)
    ensures Authorize(CORRECTED_RULES, ["users", "change-password"], Some(authorities)) == Allow <==> ANY_ROLE * authorities != {}
  {
    var path: Path := ["users", "change-password"];
    PublicRuleExactly(path);
    assert Matches(CHANGE_PASSWORD_RULE.patterns[0], path);
    OneMatches(CHANGE_PASSWORD_RULE.patterns, 0, path);
    assert AccessFor(CORRECTED_RULES, path) == CHANGE_PASSWORD_RULE.access;
  }

  /** Inserting a rule that does not match a path after the first rule leaves that path's access alone. */
  lemma InsertNonMatching(first: Rule, extra: Rule, rest: seq<Rule>, path: Path)
    requires !RuleMatches(extra, path)
    ensures AccessFor([first, extra] + rest, path) == AccessFor([first] + rest, path)
  {
    if !RuleMatches(first, path) {
      assert ([first, extra] + rest)[1..][1..] == rest == ([first] + rest)[1..];
    }
  }

  /** The correction changes the decision for the change-password path and for no other path. */
  lemma CorrectionOnlyAffectsChangePassword(path: Path, authorities: Option<set<string>>)
    requires path != ["users", "change-password"]
    ensures Authorize(CORRECTED_RULES, path, authorities) == Authorize(RULES, path, authorities)
  {
    LiteralPattern("users", "change-password", path);
    NoneMatches(CHANGE_PASSWORD_RULE.patterns, path);
    InsertNonMatching(PUBLIC_RULE, CHANGE_PASSWORD_RULE, RULES[1..], path);
    assert [PUBLIC_RULE, CHANGE_PASSWORD_RULE] + RULES[1..] == CORRECTED_RULES;
    assert [PUBLIC_RULE] + RULES[1..] == RULES;
  }
}
