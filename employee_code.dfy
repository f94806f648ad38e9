/**
 * Employee codes: "i2i", the year, and a running number zero-padded to
 * four digits ("%04d"). The generator asks the user table for the greatest
 * code of the year under the database's string order, reads its last four
 * characters as a number and adds one.
 *
 * String order is modelled as code-unit lexicographic order; the year is a
 * parameter standing in for the clock.
 */
module EmployeeCode {
  import opened Base
  import opened Entities
  import opened UserRepository

  // ---------------------------------------------------------------- string order

  /** The strict lexicographic order of String.compareTo. */
  predicate LexLess(a: string, b: string)
    decreases |a|
  {
    if a == [] then b != []
    else if b == [] then false
    else if a[0] != b[0] then a[0] < b[0]
    else LexLess(a[1..], b[1..])
  }

  /** The order is total and asymmetric. */
  lemma {:induction false} LexTotal(a: string, b: string)
    ensures a == b || LexLess(a, b) || LexLess(b, a)
    ensures !(LexLess(a, b) && LexLess(b, a))
    decreases |a|
  {
    if a != [] && b != [] && a[0] == b[0] {
      LexTotal(a[1..], b[1..]);
      assert a == [a[0]] + a[1..] && b == [b[0]] + b[1..];
    }
  }

  /** The order is transitive. */
  lemma {:induction false} LexTransitive(a: string, b: string, c: string)
    requires LexLess(a, b) && LexLess(b, c)
    ensures LexLess(a, c)
    decreases |a|
  {
    if a != [] && a[0] == b[0] && b[0] == c[0] {
      LexTransitive(a[1..], b[1..], c[1..]);
    }
  }

  /** A common prefix does not change the order. */
  lemma {:induction false} LexCommonPrefix(p: string, a: string, b: string)
    ensures LexLess(p + a, p + b) <==> LexLess(a, b)
    decreases |p|
  {
    if p == [] {
      assert p + a == a && p + b == b;
    } else {
      assert (p + a)[0] == (p + b)[0];
      assert (p + a)[1..] == p[1..] + a && (p + b)[1..] == p[1..] + b;
      LexCommonPrefix(p[1..], a, b);
    }
  }

  // ---------------------------------------------------------------- numbers as text

  /** Every character is an ASCII digit. */
  predicate AllDigits(s: string)
  {
    forall i :: 0 <= i < |s| ==> '0' <= s[i] <= '9'
  }

  /** Numbers from 1000 on take at least four digits, from 10000 on at least five. */
  lemma {:induction false} DecimalTextLength(n: nat)
    ensures n >= 10 ==> |DecimalText(n)| >= 2
    ensures n >= 100 ==> |DecimalText(n)| >= 3
    ensures n >= 1000 ==> |DecimalText(n)| >= 4
    ensures n >= 10000 ==> |DecimalText(n)| >= 5
    decreases n
  {
    if n >= 10 {
      DecimalTextLength(n / 10);
    }
  }

  /** The value of a digit string, most significant digit first. */
  function DigitsValue(s: string): nat
    requires AllDigits(s)
  {
    if s == [] then 0 else DigitsValue(s[..|s| - 1]) * 10 + (s[|s| - 1] as int - '0' as int)
  }

  /** The decimal text of n reads back as n. */
  lemma {:induction false} DecimalTextValue(n: nat)
    ensures AllDigits(DecimalText(n)) && DigitsValue(DecimalText(n)) == n
    decreases n
  {
    if n >= 10 {
      DecimalTextValue(n / 10);
      var t := DecimalText(n);
      assert t[..|t| - 1] == DecimalText(n / 10);
    }
  }

  /**
   * Integer.parseInt: an optional sign followed by at least one digit;
   * anything else is a NumberFormatException.
   */
  function ParseInt(s: string): (r: Option<int>)
    ensures r.Some? ==> |s| >= 1
    ensures AllDigits(s) && s != [] ==> r == Some(DigitsValue(s))
  {
    if |s| >= 2 && s[0] == '-' && AllDigits(s[1..]) then Some(-(DigitsValue(s[1..]) as int))
    else if |s| >= 2 && s[0] == '+' && AllDigits(s[1..]) then Some(DigitsValue(s[1..]))
    else if |s| >= 1 && AllDigits(s) then Some(DigitsValue(s))
    else None
  }

  /**
   * String.format("%04d", n): at least four characters, padded with zeros
   * after the sign; a number needing more characters is written in full.
   */
  function Pad4(n: int): (r: string)
    ensures |r| >= 4
    ensures 0 <= n < 10000 ==> |r| == 4
    ensures n >= 0 ==> AllDigits(r)
  {
    if 0 <= n < 10000 then [Digit(n / 1000), Digit(n / 100 % 10), Digit(n / 10 % 10), Digit(n % 10)]
    else if n >= 10000 then DecimalTextLength(n); DecimalText(n)
    else if n > -1000 then ['-', Digit(-n / 100), Digit(-n / 10 % 10), Digit(-n % 10)]
    else DecimalTextLength(-n); "-" + DecimalText(-n)
  }

  /** A non-negative padded number reads back as itself. */
  lemma Pad4Value(n: nat)
    ensures AllDigits(Pad4(n)) && DigitsValue(Pad4(n)) == n
  {
    if n < 10000 {
      var r := Pad4(n);
      FourDigitsValue(r, n);
    } else {
      DecimalTextValue(n);
    }
  }

  /** Four digits spelling n / 1000, n / 100 % 10, n / 10 % 10, n % 10 read back as n. */
  lemma FourDigitsValue(r: string, n: nat)
    requires n < 10000
    requires r == [Digit(n / 1000), Digit(n / 100 % 10), Digit(n / 10 % 10), Digit(n % 10)]
    ensures AllDigits(r) && DigitsValue(r) == n
  {
    assert r[..1][..0] == [];
    assert DigitsValue(r[..1]) == n / 1000;
    assert r[..2][..1] == r[..1];
    assert DigitsValue(r[..2]) == n / 100;
    assert r[..3][..2] == r[..2];
    assert DigitsValue(r[..3]) == n / 10;
    assert r[..4][..3] == r[..3] && r[..4] == r;
  }

  /** Three digits spelling m / 100, m / 10 % 10, m % 10 read back as m. */
  lemma ThreeDigitsValue(r: string, m: nat)
    requires m < 1000
    requires r == [Digit(m / 100), Digit(m / 10 % 10), Digit(m % 10)]
    ensures AllDigits(r) && DigitsValue(r) == m
  {
    assert r[..1][..0] == [];
    assert DigitsValue(r[..1]) == m / 100;
    assert r[..2][..1] == r[..1];
    assert DigitsValue(r[..2]) == m / 10;
    assert r[..3][..2] == r[..2] && r[..3] == r;
  }

  /** Integer.parseInt reads back every padded number from -999 to 9999. */
  lemma ParsePad4(n: int)
    requires -999 <= n <= 9999
    ensures ParseInt(Pad4(n)) == Some(n)
  {
    if n >= 0 {
      Pad4Value(n);
    } else {
      var r := Pad4(n);
      var m := -n;
      FourDigitsValue(['0'] + r[1..], m);
      assert (['0'] + r[1..])[1..] == r[1..];
      ThreeDigitsValue(r[1..], m);
    }
  }

  /** Among four-digit paddings, the string order is the numeric order. */
  lemma Pad4Ordered(a: int, b: int)
    requires 0 <= a < b < 10000
    ensures LexLess(Pad4(a), Pad4(b))
  {
    DigitDecomposition(a);
    DigitDecomposition(b);
    DigitsOrdered(a / 1000, a / 100 % 10, a / 10 % 10, a % 10, b / 1000, b / 100 % 10, b / 10 % 10, b % 10);
  }

  /** A number below 10000 is the sum of its four decimal digits times their place values. */
  lemma DigitDecomposition(n: nat)
    requires n < 10000
    ensures n / 1000 < 10
    ensures n == 1000 * (n / 1000) + 100 * (n / 100 % 10) + 10 * (n / 10 % 10) + n % 10
  {
    var t, h := n / 10, n / 100;
    assert n == 10 * t + n % 10;
    assert t / 10 == h;
    assert t == 10 * h + n / 10 % 10;
    assert h / 10 == n / 1000;
    assert h == 10 * (n / 1000) + n / 100 % 10;
  }

  /** Four digits in order compare as the numbers they spell. */
  lemma DigitsOrdered(a1: nat, a2: nat, a3: nat, a4: nat, b1: nat, b2: nat, b3: nat, b4: nat)
    requires a1 < 10 && a2 < 10 && a3 < 10 && a4 < 10 && b1 < 10 && b2 < 10 && b3 < 10 && b4 < 10
    requires 1000 * a1 + 100 * a2 + 10 * a3 + a4 < 1000 * b1 + 100 * b2 + 10 * b3 + b4
    ensures LexLess([Digit(a1), Digit(a2), Digit(a3), Digit(a4)], [Digit(b1), Digit(b2), Digit(b3), Digit(b4)])
  {
    var x := [Digit(a1), Digit(a2), Digit(a3), Digit(a4)];
    var y := [Digit(b1), Digit(b2), Digit(b3), Digit(b4)];
    assert x[1..] == [Digit(a2), Digit(a3), Digit(a4)] && y[1..] == [Digit(b2), Digit(b3), Digit(b4)];
    assert x[1..][1..] == [Digit(a3), Digit(a4)] && y[1..][1..] == [Digit(b3), Digit(b4)];
    assert x[1..][1..][1..] == [Digit(a4)] && y[1..][1..][1..] == [Digit(b4)];
    if a1 == b1 && a2 == b2 && a3 == b3 {
      assert LexLess(x[1..][1..][1..], y[1..][1..][1..]);
    }
    if a1 == b1 && a2 == b2 {
      assert LexLess(x[1..][1..], y[1..][1..]);
    }
    if a1 == b1 {
      assert LexLess(x[1..], y[1..]);
    }
  }

  // ---------------------------------------------------------------- the query

  /** "i2i" followed by the year: the prefix of every code issued in that year. */
  function YearPrefix(year: nat): (p: string)
    ensures |p| >= 4 && p[..3] == "i2i"
  {
    "i2i" + DecimalText(year)
  }

  /** The employee ids in the table that begin with the prefix: the LIKE 'prefix%' filter. */
  function CodesWithPrefix(users: UserTable, prefix: string): (s: set<string>)
    ensures forall c :: c in s ==> StartsWith(c, prefix)
    ensures forall id :: id in users && users[id].employeeId.Some? && StartsWith(users[id].employeeId.value, prefix)
                         ==> users[id].employeeId.value in s
    ensures forall c :: c in s ==> exists id :: id in users && users[id].employeeId == Some(c)
  {
    set id | id in users && users[id].employeeId.Some? && StartsWith(users[id].employeeId.value, prefix)
      :: users[id].employeeId.value
  }

  /** m is the first row of ORDER BY ... DESC over the codes. */
  predicate IsGreatest(codes: set<string>, m: string)
  {
    m in codes && forall c :: c in codes ==> c == m || LexLess(c, m)
  }

  /** A set of codes has at most one greatest element. */
  lemma GreatestUnique(codes: set<string>, m1: string, m2: string)
    requires IsGreatest(codes, m1) && IsGreatest(codes, m2)
    ensures m1 == m2
  {
    LexTotal(m1, m2);
  }

  /** A finite set of codes that is not empty has a greatest element. */
  lemma {:induction false} GreatestExists(codes: set<string>)
    requires codes != {}
    ensures exists m :: IsGreatest(codes, m)
    decreases |codes|
  {
    var c :| c in codes;
    var rest := codes - {c};
    if rest == {} {
      assert codes == {c};
      assert IsGreatest(codes, c);
    } else {
      GreatestExists(rest);
      var m :| IsGreatest(rest, m);
      LexTotal(m, c);
      if LexLess(m, c) {
        forall x | x in codes && x != c
          ensures LexLess(x, c)
        {
          if x != m {
            LexTransitive(x, m, c);
          }
        }
        assert IsGreatest(codes, c);
      } else {
        assert IsGreatest(codes, m);
      }
    }
  }

  /** The answer of the query: the year's greatest code, or none. */
  ghost function LastEmployeeCode(users: UserTable, year: nat): (r: Option<string>)
    ensures r.None? <==> CodesWithPrefix(users, YearPrefix(year)) == {}
    ensures r.Some? ==> IsGreatest(CodesWithPrefix(users, YearPrefix(year)), r.value)
  {
    var codes := CodesWithPrefix(users, YearPrefix(year));
    if codes == {} then None
    else
      GreatestExists(codes);
      var m :| IsGreatest(codes, m);
      Some(m)
  }

  /**
   * findLastEmployeeCodeForYear: the greatest code carrying the year's
   * prefix, or none when the year has no code yet.
   */
  method FindLastEmployeeCodeForYear(users: UserTable, year: nat) returns (last: Option<string>)
    ensures last.None? <==> CodesWithPrefix(users, YearPrefix(year)) == {}
    ensures last.Some? ==> IsGreatest(CodesWithPrefix(users, YearPrefix(year)), last.value)
    ensures last == LastEmployeeCode(users, year)
  {
    var codes := CodesWithPrefix(users, YearPrefix(year));
    var rest := codes;
    last := None;
    while rest != {}
      invariant rest <= codes
      invariant last.None? <==> rest == codes
      invariant last.Some? ==> IsGreatest(codes - rest, last.value)
      decreases |rest|
    {
      var c :| c in rest;
      if last.None? {
        last := Some(c);
      } else if LexLess(last.value, c) {
        forall x | x in codes - (rest - {c}) && x != c
          ensures LexLess(x, c)
        {
          if x != last.value {
            LexTransitive(x, last.value, c);
          }
        }
        last := Some(c);
      } else {
        LexTotal(last.value, c);
      }
      rest := rest - {c};
    }
    if last.Some? {
      GreatestUnique(codes, last.value, LastEmployeeCode(users, year).value);
    }
  }

  // ---------------------------------------------------------------- the generator

  /**
   * The code that follows `last`, the query's answer: the number in the
   * last four characters of `last`, plus one, or 1 when there is no code
   * yet, written with "%04d" after the year's prefix. When those four
   * characters are not a number (or there are fewer than four) the
   * generator throws.
   */
  function NextEmployeeCode(year: nat, last: Option<string>): (r: Result<string>)
    ensures last.None? ==> r == Ok(YearPrefix(year) + "0001")
    ensures r.Err? ==> r.error == RuntimeEx("NumberFormatException")
    ensures r.Ok? ==> StartsWith(r.value, YearPrefix(year)) && |r.value| >= |YearPrefix(year)| + 4
    ensures last.Some? && |last.value| >= 4 && AllDigits(last.value[|last.value| - 4..]) ==> r.Ok?
  {
    var number :=
      if last.None? then Some(1)
      else if |last.value| < 4 then None
      else match ParseInt(last.value[|last.value| - 4..])
        case None => None
        case Some(n) => Some(n + 1);
    if number.None? then Err(RuntimeEx("NumberFormatException"))
    else
      FirstCodeNumber();
      Ok(YearPrefix(year) + Pad4(number.value))
  }

  /**
   * The generator counts up: after prefix + n (n from 0 to 9998) comes
   * prefix + n + 1, which follows it in the string order.
   */
  lemma NextFollows(year: nat, n: int)
    requires 0 <= n < 9999
    ensures NextEmployeeCode(year, Some(YearPrefix(year) + Pad4(n))) == Ok(YearPrefix(year) + Pad4(n + 1))
    ensures LexLess(YearPrefix(year) + Pad4(n), YearPrefix(year) + Pad4(n + 1))
  {
    var last := YearPrefix(year) + Pad4(n);
    assert last[|last| - 4..] == Pad4(n);
    ParsePad4(n);
    Pad4Ordered(n, n + 1);
    LexCommonPrefix(YearPrefix(year), Pad4(n), Pad4(n + 1));
  }

  /**
   * While the year's greatest code ends in a number below 9999, the next
   * code is greater than every code of the year, hence new.
   */
  lemma NextIsFreshBelow9999(users: UserTable, year: nat, n: int)
    requires 0 <= n < 9999
    requires IsGreatest(CodesWithPrefix(users, YearPrefix(year)), YearPrefix(year) + Pad4(n))
    ensures forall id :: id in users ==> users[id].employeeId != Some(YearPrefix(year) + Pad4(n + 1))
  {
    var codes := CodesWithPrefix(users, YearPrefix(year));
    var last := YearPrefix(year) + Pad4(n);
    var next := YearPrefix(year) + Pad4(n + 1);
    NextFollows(year, n);
    forall c | c in codes
      ensures c != next
    {
      if c != last {
        LexTransitive(c, last, next);
      }
      LexTotal(c, next);
    }
    assert next[..|YearPrefix(year)|] == YearPrefix(year);
  }

  /**
   * generateEmployeeCode: the successor of the year's greatest code, as
   * the query finds it.
   */
  method GenerateEmployeeCode(users: UserTable, year: nat) returns (r: Result<string>)
    ensures r == NextEmployeeCode(year, LastEmployeeCode(users, year))
  {
    var last := FindLastEmployeeCodeForYear(users, year);
    r := NextEmployeeCode(year, last);
  }

  /** The texts of 9999 and 10000 under "%04d". */
  lemma PadAround10000()
    ensures Pad4(9999) == "9999" && Pad4(10000) == "10000"
  {
    assert Digit(9) == '9' && Digit(1) == '1' && Digit(0) == '0';
    assert DecimalText(1) == "1";
    assert DecimalText(10) == "10";
    assert DecimalText(100) == "100";
    assert DecimalText(1000) == "1000";
  }

  /**
   * After the 9999th code of a year the generator repeats itself: with
   * prefix + "9999" and prefix + "10000" issued, the greatest code in
   * string order is still prefix + "9999", so the next code is
   * prefix + "10000" again.
   */
  lemma CodeRepeatsAfter9999(year: nat)
    ensures var p := YearPrefix(year);
      IsGreatest({p + "9999", p + "10000"}, p + "9999")
      && NextEmployeeCode(year, Some(p + "9999")) == Ok(p + "10000")
  {
    var p := YearPrefix(year);
    var last := p + "9999";
    PadAround10000();
    ParsePad4(9999);
    assert last[|last| - 4..] == "9999";
    LexCommonPrefix(p, "10000", "9999");
    assert LexLess("10000", "9999");
  }

  // ---------------------------------------------------------------- corrected generator

  /** The number after the year's prefix, when everything after it is digits. */
  function NumericSuffix(code: string, prefix: string): (r: Option<nat>)
    ensures r.Some? ==> StartsWith(code, prefix) && AllDigits(code[|prefix|..]) && r.value == DigitsValue(code[|prefix|..])
  {
    if StartsWith(code, prefix) && |code| > |prefix| && AllDigits(code[|prefix|..]) then
      Some(DigitsValue(code[|prefix|..]))
    else None
  }

  /** The greatest number after the prefix among the codes, or 0 when none carries one. */
  ghost function MaxSuffix(codes: set<string>, prefix: string): (m: nat)
    ensures forall c :: c in codes && NumericSuffix(c, prefix).Some? ==> NumericSuffix(c, prefix).value <= m
    ensures m == 0 || exists c :: c in codes && NumericSuffix(c, prefix) == Some(m)
    decreases codes
  {
    if codes == {} then 0
    else
      var c :| c in codes;
      var rest := MaxSuffix(codes - {c}, prefix);
      match NumericSuffix(c, prefix)
      case Some(n) => if n > rest then n else rest
      case None => rest
  }

  /** The first number of a year is written 0001. */
  lemma FirstCodeNumber()
    ensures Pad4(1) == "0001"
  {
    assert Digit(0) == '0' && Digit(1) == '1';
    assert Pad4(1) == [Digit(0), Digit(0), Digit(0), Digit(1)];
  }

  /** A prefix followed by a padded positive number carries that number as its suffix. */
  lemma PaddedCodeSuffix(prefix: string, n: nat)
    requires 1 <= n
    ensures StartsWith(prefix + Pad4(n), prefix) && NumericSuffix(prefix + Pad4(n), prefix) == Some(n)
  {
    var code := prefix + Pad4(n);
    assert code[..|prefix|] == prefix;
    Pad4Value(n);
    assert code[|prefix|..] == Pad4(n);
  }

  /**
   * The generator as evidently intended: one more than the greatest
   * number issued in the year, compared as a number, not as text. Its
   * code is never one already held by a user.
   */
  ghost function FreshEmployeeCode(users: UserTable, year: nat): (code: string)
    ensures StartsWith(code, YearPrefix(year))
    ensures CodesWithPrefix(users, YearPrefix(year)) == {} ==> code == YearPrefix(year) + "0001"
    ensures forall id :: id in users ==> users[id].employeeId != Some(code)
  {
    var prefix := YearPrefix(year);
    var next := MaxSuffix(CodesWithPrefix(users, prefix), prefix) + 1;
    PaddedCodeSuffix(prefix, next);
    NextCodeUnused(users, prefix);
    FirstCodeNumber();
    prefix + Pad4(next)
  }

  /** One past the greatest suffix under a prefix is held by nobody. */
  lemma NextCodeUnused(users: UserTable, prefix: string)
    ensures var code := prefix + Pad4(MaxSuffix(CodesWithPrefix(users, prefix), prefix) + 1);
      forall id :: id in users ==> users[id].employeeId != Some(code)
  {
    var codes := CodesWithPrefix(users, prefix);
    var next := MaxSuffix(codes, prefix) + 1;
    var code := prefix + Pad4(next);
    PaddedCodeSuffix(prefix, next);
    assert code !in codes;
    forall id | id in users
      ensures users[id].employeeId != Some(code)
    {
      assert users[id].employeeId == Some(code) ==> code in codes;
    }
  }

  /**
   * The corrected generator, scanning the year's codes once for the
   * greatest number.
   */
  method GenerateFreshEmployeeCode(users: UserTable, year: nat) returns (code: string)
    ensures code == FreshEmployeeCode(users, year)
  {
    var prefix := YearPrefix(year);
    var greatest := GreatestSuffix(CodesWithPrefix(users, prefix), prefix);
    code := prefix + Pad4(greatest + 1);
  }

  /** The scan itself: the greatest number after the prefix among the codes. */
  method GreatestSuffix(codes: set<string>, prefix: string) returns (greatest: nat)
    ensures greatest == MaxSuffix(codes, prefix)
  {
    var rest := codes;
    greatest := 0;
    while rest != {}
      invariant rest <= codes
      invariant forall c :: c in codes - rest && NumericSuffix(c, prefix).Some? ==> NumericSuffix(c, prefix).value <= greatest
      invariant greatest == 0 || exists c :: c in codes - rest && NumericSuffix(c, prefix) == Some(greatest)
      decreases |rest|
    {
      var c :| c in rest;
      var n := NumericSuffix(c, prefix);
      if n.Some? && n.value > greatest {
        greatest := n.value;
        assert c in codes - (rest - {c});
      }
      rest := rest - {c};
    }
    assert codes - rest == codes;
    MaxSuffixUnique(codes, prefix, greatest);
  }

  /** MaxSuffix is the only bound on the suffixes that some code attains. */
  lemma MaxSuffixUnique(codes: set<string>, prefix: string, g: nat)
    requires forall c :: c in codes && NumericSuffix(c, prefix).Some? ==> NumericSuffix(c, prefix).value <= g
    requires g == 0 || exists c :: c in codes && NumericSuffix(c, prefix) == Some(g)
    ensures g == MaxSuffix(codes, prefix)
  {
    var m := MaxSuffix(codes, prefix);
    if g != 0 {
      var w :| w in codes && NumericSuffix(w, prefix) == Some(g);
    }
    if m != 0 {
      var w :| w in codes && NumericSuffix(w, prefix) == Some(m);
    }
  }
}
