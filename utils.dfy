/** The string validator of utils/utils.py: `is_integer(s)` is true when Python's
    `int(s)` accepts `s` and the value it yields is not negative. Python's base-10
    integer grammar is written out below so that "accepts" has a meaning. */
module Utils {
  import opened Wrappers

  /** The characters `int()` skips before and after the number in an all-ASCII
      string: tab, line feed, vertical tab, form feed, carriage return and
      space. The separators 28..31 are whitespace to `str.strip()` but not to
      `int()` on such a string. */
  predicate IsSpace(c: char) {
    c == ' ' || (9 <= c as int <= 13)
  }

  predicate IsDigit(c: char) {
    '0' <= c <= '9'
  }

  function DigitValue(c: char): (d: nat)
    requires IsDigit(c)
    ensures d < 10
  {
    c as int - '0' as int
  }

  function DigitChar(d: nat): (c: char)
    requires d < 10
    ensures IsDigit(c) && DigitValue(c) == d
  {
    ('0' as int + d) as char
  }

  function TrimStart(s: string): (r: string)
    ensures |r| <= |s| && r == s[|s| - |r|..]
    ensures r == [] || !IsSpace(r[0])
  {
    if s != [] && IsSpace(s[0]) then TrimStart(s[1..]) else s
  }

  function TrimEnd(s: string): (r: string)
    ensures |r| <= |s| && r == s[..|r|]
    ensures r == [] || !IsSpace(r[|r| - 1])
  {
    if s != [] && IsSpace(s[|s| - 1]) then TrimEnd(s[..|s| - 1]) else s
  }

  /** What `TrimStart` cuts off is spaces. */
  lemma {:induction false} TrimStartCutsSpaces(s: string)
    ensures forall i :: 0 <= i < |s| - |TrimStart(s)| ==> IsSpace(s[i])
  {
    if s != [] && IsSpace(s[0]) {
      TrimStartCutsSpaces(s[1..]);
      forall i | 1 <= i < |s| - |TrimStart(s)| ensures IsSpace(s[i]) {
        assert s[i] == s[1..][i - 1];
      }
    }
  }

  /** What `TrimEnd` cuts off is spaces. */
  lemma {:induction false} TrimEndCutsSpaces(s: string)
    ensures forall i :: |TrimEnd(s)| <= i < |s| ==> IsSpace(s[i])
  {
    if s != [] && IsSpace(s[|s| - 1]) {
      TrimEndCutsSpaces(s[..|s| - 1]);
      forall i | |TrimEnd(s)| <= i < |s| - 1 ensures IsSpace(s[i]) {
        assert s[i] == s[..|s| - 1][i];
      }
    }
  }

  /** Python's `str.strip()` restricted to the spaces above. */
  function Strip(s: string): (r: string) {
    TrimEnd(TrimStart(s))
  }

  /** The digit part of a base-10 literal: digits, with single underscores
      allowed between two digits ("1_000" but not "_1", "1_" or "1__0"). */
  predicate DigitsOrUnderscores(d: string) {
    forall i :: 0 <= i < |d| ==> IsDigit(d[i]) || d[i] == '_'
  }

  predicate ValidDigits(d: string) {
    && DigitsOrUnderscores(d)
    && |d| > 0
    && IsDigit(d[0])
    && IsDigit(d[|d| - 1])
    && forall i, j | 0 <= i < |d| && 0 <= j < |d| && j == i + 1 :: IsDigit(d[i]) || IsDigit(d[j])
  }

  /** The value of a run of digits and underscores; underscores add nothing. */
  function DigitsValue(d: string): (v: nat)
    requires DigitsOrUnderscores(d)
  {
    if d == [] then 0
    else if d[|d| - 1] == '_' then DigitsValue(d[..|d| - 1])
    else 10 * DigitsValue(d[..|d| - 1]) + DigitValue(d[|d| - 1])
  }

  /** What `int(s)` yields for a string `s`: `None` where it raises ValueError. */
  function ParseInt(s: string): (r: Option<int>) {
    var t := Strip(s);
    if |t| > 0 && (t[0] == '+' || t[0] == '-') then
      if ValidDigits(t[1..]) then
        Some(if t[0] == '-' then -(DigitsValue(t[1..]) as int) else DigitsValue(t[1..]))
      else None
    else if ValidDigits(t) then Some(DigitsValue(t))
    else None
  }

  /** utils/utils.py `is_integer`: parses, and the value is not negative. */
  predicate IsInteger(s: string) {
    match ParseInt(s)
    case Some(v) => v >= 0
    case None => false
  }

  /** Python's `str(n)` for a non-negative integer. */
  function NatToString(n: nat): (s: string)
    ensures |s| > 0 && IsDigit(s[0]) && IsDigit(s[|s| - 1])
    ensures forall i :: 0 <= i < |s| ==> IsDigit(s[i])
    decreases n
  {
    if n < 10 then [DigitChar(n)] else NatToString(n / 10) + [DigitChar(n % 10)]
  }

  /** Python's `str(n)` for any integer. */
  function IntToString(n: int): (s: string)
    ensures |s| > 0 && IsDigit(s[|s| - 1])
    ensures s[0] == '-' <==> n < 0
  {
    if n < 0 then "-" + NatToString(-n) else NatToString(n)
  }

  lemma {:induction false} NatToStringValue(n: nat)
    ensures ValidDigits(NatToString(n))
    ensures DigitsValue(NatToString(n)) == n
    decreases n
  {
    var s := NatToString(n);
    if n >= 10 {
      NatToStringValue(n / 10);
      assert s[..|s| - 1] == NatToString(n / 10);
    }
  }

  lemma StripUnpadded(s: string)
    requires |s| > 0 && !IsSpace(s[0]) && !IsSpace(s[|s| - 1])
    ensures Strip(s) == s
  {
  }

  /** `int(str(n)) == n`: reading back what Python prints gives the same integer. */
  lemma {:induction false} ParseIntToString(n: int)
    ensures ParseInt(IntToString(n)) == Some(n)
  {
    var s := IntToString(n);
    NatToStringValue(if n < 0 then -n else n);
    StripUnpadded(s);
    if n < 0 {
      assert s[1..] == NatToString(-n);
    }
  }

  /** `is_integer(str(n))` holds exactly for the non-negative integers. */
  lemma IsIntegerOfIntToString(n: int)
    ensures IsInteger(IntToString(n)) <==> n >= 0
  {
    ParseIntToString(n);
  }

  /** `Strip(s)` is a slice of `s` with only spaces cut off on either side. */
  lemma StripBounds(s: string) returns (lo: nat, hi: nat)
    ensures lo <= hi <= |s| && Strip(s) == s[lo..hi]
    ensures forall i :: 0 <= i < lo || hi <= i < |s| ==> IsSpace(s[i])
  {
    var u := TrimStart(s);
    lo := |s| - |u|;
    hi := lo + |TrimEnd(u)|;
    TrimStartCutsSpaces(s);
    TrimEndCutsSpaces(u);
    forall i | hi <= i < |s| ensures IsSpace(s[i]) {
      assert s[i] == u[i - lo];
    }
  }

  /** A string `int()` accepts is spaces, an optional sign, a well-formed
      digit part, spaces. */
  lemma ParsedShape(s: string) returns (lo: nat, k: nat, hi: nat)
    requires ParseInt(s).Some?
    ensures lo + k <= hi <= |s| && k <= 1
    ensures forall i :: 0 <= i < lo || hi <= i < |s| ==> IsSpace(s[i])
    ensures k == 1 ==> s[lo] == '+' || s[lo] == '-'
    ensures ValidDigits(s[lo + k..hi])
    ensures ParseInt(s).value == if k == 1 && s[lo] == '-' then -(DigitsValue(s[lo + k..hi]) as int)
                                 else DigitsValue(s[lo + k..hi])
  {
    lo, hi := StripBounds(s);
    var t := Strip(s);
    k := if |t| > 0 && (t[0] == '+' || t[0] == '-') then 1 else 0;
    assert t[k..] == s[lo + k..hi];
  }

  /** A well-formed digit part starts with a digit. */
  lemma DigitsStartWithDigit(s: string, a: nat, b: nat)
    requires a <= b <= |s| && ValidDigits(s[a..b])
    ensures a < b && IsDigit(s[a])
  {
    assert s[a..b][0] == s[a];
  }

  /** In a string of the accepted shape, a minus sign can only be the sign. */
  lemma MinusIsSign(s: string, lo: nat, k: nat, hi: nat, i: nat)
    requires lo + k <= hi <= |s| && k <= 1
    requires forall j :: 0 <= j < lo || hi <= j < |s| ==> IsSpace(s[j])
    requires ValidDigits(s[lo + k..hi])
    requires i < |s| && s[i] == '-'
    ensures k == 1 && i == lo
  {
    forall j | lo + k <= j < hi ensures s[j] != '-' {
      assert s[j] == s[lo + k..hi][j - lo - k];
    }
    assert !IsSpace(s[i]);
  }

  /** A string accepted by `is_integer` carries at least one digit, and a minus
      sign in it can only stand in front of a zero ("-0", "-00"). */
  lemma IsIntegerShape(s: string)
    requires IsInteger(s)
    ensures exists i :: 0 <= i < |s| && IsDigit(s[i])
    ensures forall i :: 0 <= i < |s| && s[i] == '-' ==> ParseInt(s) == Some(0)
  {
    var lo, k, hi := ParsedShape(s);
    DigitsStartWithDigit(s, lo + k, hi);
    forall i | 0 <= i < |s| && s[i] == '-' ensures ParseInt(s) == Some(0) {
      MinusIsSign(s, lo, k, hi, i);
    }
  }

  // utils/utils.py `is_integer`, as exercised by testing/unit_testing.py. Each
  // case takes its string as a parameter fixed by `requires`, which keeps the
  // verifier from evaluating the whole parser on a literal.

  lemma AcceptsPositive(s: string)
    requires s == "123"
    ensures IsInteger(s)
  {
    StripUnpadded(s);
    assert ValidDigits(s);
  }

  lemma RejectsNegative(s: string)
    requires s == "-123"
    ensures !IsInteger(s)
  {
    StripUnpadded(s);
    var d := s[1..];
    assert ValidDigits(d) && d[|d| - 1] == '3';
    assert DigitsValue(d) > 0;
  }

  lemma RejectsLetters(s: string)
    requires s == "abc"
    ensures !IsInteger(s)
  {
    StripUnpadded(s);
  }

  lemma AcceptsZero(s: string)
    requires s == "0"
    ensures IsInteger(s)
  {
    StripUnpadded(s);
    assert ValidDigits(s);
  }

  lemma AcceptsMinusZero(s: string)
    requires s == "-0"
    ensures IsInteger(s)
  {
    StripUnpadded(s);
    assert s[1..] == NatToString(0);
    NatToStringValue(0);
  }
}
