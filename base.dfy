/**
 * Shared vocabulary of the model: optional values (Java's null), the
 * exceptions the services raise, and the few string operations of
 * java.lang.String the core relies on (isBlank, startsWith, toUpperCase,
 * equalsIgnoreCase, string concatenation with a possibly-null operand).
 */
module Base {

  /** A Java reference that may be null. */
  datatype Option<+T> = None | Some(value: T)

  /**
   * The exception classes of the application, one constructor each.
   * Kinds that subclass ApplicationException are marked by
   * IsApplicationException below.
   */
  datatype Failure =
    | ValidationEx(msg: string)
    | BadRequestEx(msg: string)
    | ConflictEx(msg: string)
    | NotFoundEx(msg: string)
    | UserNotFoundEx(msg: string)
    | RoleNotFoundEx(msg: string)
    | AuthenticationFailedEx(msg: string)
    | RoleAssignmentEx(msg: string)
    | RegistrationEx(msg: string)
    | UnauthorizedEx(msg: string)
    | ApplicationEx(msg: string)
    | ExternalServiceEx(msg: string)
    | DatabaseEx(msg: string)
    /** Any other unchecked exception (NullPointerException, RuntimeException, ...). */
    | RuntimeEx(msg: string)

  /** The outcome of an operation that returns a value or throws. */
  datatype Result<+T> = Ok(value: T) | Err(error: Failure)

  /** The outcome of an operation that returns nothing or throws. */
  datatype Outcome = Pass | Fail(error: Failure)

  /**
   * The outcome of a Spring Data finder that returns Optional: no row, one
   * row, or several rows (which makes the finder throw).
   */
  datatype Lookup<+K> = Absent | Found(key: K) | Duplicate

  /** Java's Character.isWhitespace, restricted to the ASCII range. */
  predicate IsWhitespace(c: char)
  {
    c == ' ' || c == '\t' || c == '\n' || c == '\r' || c == '\U{B}' || c == '\U{C}'
    || ('\U{1C}' <= c <= '\U{1F}')
  }

  /** String.isBlank: empty or only white space. */
  predicate IsBlank(s: string)
  {
    forall i :: 0 <= i < |s| ==> IsWhitespace(s[i])
  }

  /** A null-or-blank check, as written `s == null || s.isBlank()`. */
  predicate NullOrBlank(s: Option<string>)
  {
    s.None? || IsBlank(s.value)
  }

  predicate StartsWith(s: string, prefix: string)
  {
    |prefix| <= |s| && s[..|prefix|] == prefix
  }

  function UpperChar(c: char): char
  {
    if 'a' <= c <= 'z' then (c as int - 32) as char else c
  }

  /** String.toUpperCase on ASCII letters. */
  function Upper(s: string): (r: string)
    ensures |r| == |s|
    ensures forall i :: 0 <= i < |s| ==> r[i] == UpperChar(s[i])
  {
    if s == [] then [] else [UpperChar(s[0])] + Upper(s[1..])
  }

  /** Upper-casing twice changes nothing more, and keeps blank text blank. */
  lemma UpperIdempotent(s: string)
    ensures Upper(Upper(s)) == Upper(s)
    ensures IsBlank(Upper(s)) <==> IsBlank(s)
  {
    assert forall i :: 0 <= i < |s| ==> UpperChar(UpperChar(s[i])) == UpperChar(s[i]);
  }

  /** String.equalsIgnoreCase on ASCII letters. */
  predicate EqualsIgnoreCase(a: string, b: string)
  {
    Upper(a) == Upper(b)
  }

  /** String concatenation `"" + x` in Java: a null operand prints as "null". */
  function Str(s: Option<string>): string
  {
    if s.Some? then s.value else "null"
  }

  /** Java's `a + b` where either operand may be null. */
  function Concat(a: Option<string>, b: Option<string>): (r: string)
    ensures a.Some? && b.Some? ==> r == a.value + b.value
  {
    Str(a) + Str(b)
  }

  /** A set of size one has exactly one element. */
  lemma SingletonMembers<K>(s: set<K>)
    requires |s| == 1
    ensures forall a, b :: a in s && b in s ==> a == b
  {
    forall a, b | a in s && b in s ensures a == b {
      if a != b {
        assert {a, b} <= s;
        assert |{a, b}| == 2;
        SubsetSize({a, b}, s);
      }
    }
  }

  lemma SubsetSize<K>(a: set<K>, b: set<K>)
    requires a <= b
    ensures |a| <= |b|
  {
    assert b == a + (b - a);
  }

  /** The only element of a set, or Absent / Duplicate. */
  function Unique<K>(s: set<K>): (r: Lookup<K>)
    ensures r.Absent? <==> s == {}
    ensures r.Found? <==> |s| == 1
    ensures r.Found? ==> s == {r.key}
    ensures r.Duplicate? <==> |s| >= 2
  {
    if |s| == 0 then Absent
    else if |s| == 1 then
      SingletonMembers(s);
      var k :| k in s;
      assert s == {k};
      Found(k)
    else Duplicate
  }

  /** The decimal digit for 0 to 9. */
  function Digit(d: nat): (c: char)
    requires d < 10
    ensures '0' <= c <= '9' && c as int - '0' as int == d
  {
    ('0' as int + d) as char
  }

  /**
   * The decimal text of a natural number, most significant digit first and
   * without leading zeros. It also stands for the printed form of an
   * identifier in messages.
   */
  function DecimalText(n: nat): (r: string)
    ensures |r| >= 1
    ensures forall i :: 0 <= i < |r| ==> '0' <= r[i] <= '9'
  {
    if n < 10 then [Digit(n)] else DecimalText(n / 10) + [Digit(n % 10)]
  }
}
