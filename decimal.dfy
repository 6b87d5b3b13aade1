/**
 * The two integer/text conversions the bot relies on: Python's `str` on an
 * integer (used for the identifiers that are hashed and for the positions
 * printed by `view`) and Python's `int` on a text (used for the index given
 * to `task finished` / `task cancel`).
 */
module Decimal {
  import opened Wrappers

  predicate IsDigit(c: char) { '0' <= c <= '9' }

  predicate AllDigits(s: string) { forall i | 0 <= i < |s| :: IsDigit(s[i]) }

  function DigitValue(c: char): (d: nat)
    requires IsDigit(c)
    ensures d < 10
  {
    c as int - '0' as int
  }

  function DigitChar(d: nat): (c: char)
    requires d < 10
    ensures IsDigit(c) && DigitValue(c) == d
  {
    ('0' as int + d) as char
  }

  /** `str(n)` for a non-negative integer: its decimal digits, without leading zeros. */
  function NatToString(n: nat): (s: string)
    ensures |s| >= 1 && AllDigits(s)
    ensures s[0] == '0' ==> n == 0
  {
    if n < 10 then [DigitChar(n)] else NatToString(n / 10) + [DigitChar(n % 10)]
  }

  /** `str(n)` for any integer: a minus sign before the digits of a negative number. */
  function IntToString(n: int): (s: string)
    ensures |s| >= 1
    ensures s[0] == '-' <==> n < 0
    ensures IsDigit(s[|s| - 1])
  {
    if n < 0 then "-" + NatToString(-n) else NatToString(n)
  }

  /** The number a string of decimal digits denotes, most significant digit first. */
  function DigitsValue(s: string): nat
    requires AllDigits(s)
  {
    if s == [] then 0 else DigitsValue(s[..|s| - 1]) * 10 + DigitValue(s[|s| - 1])
  }

  /** Reading back what `NatToString` wrote gives the number again. */
  lemma {:induction false} DigitsValueOfNatToString(n: nat)
    ensures DigitsValue(NatToString(n)) == n
  {
    if n >= 10 {
      var s := NatToString(n);
      assert s[..|s| - 1] == NatToString(n / 10);
      DigitsValueOfNatToString(n / 10);
    }
  }

  /** Different numbers have different renderings. */
  lemma NatToStringInjective(a: nat, b: nat)
    ensures NatToString(a) == NatToString(b) ==> a == b
  {
    DigitsValueOfNatToString(a);
    DigitsValueOfNatToString(b);
  }

  /** Different integers have different renderings, so `str` loses nothing before hashing. */
  lemma IntToStringInjective(a: int, b: int)
    ensures IntToString(a) == IntToString(b) ==> a == b
  {
    if IntToString(a) == IntToString(b) {
      if a < 0 {
        assert IntToString(a)[1..] == NatToString(-a);
        assert IntToString(b)[1..] == NatToString(-b);
        NatToStringInjective(-a, -b);
      } else {
        NatToStringInjective(a, b);
      }
    }
  }

  /**
   * The white space Python's `int` skips around an ASCII literal: the space
   * and \t, \n, \v, \f, \r (CPython's `Py_ISSPACE`). The separators U+001C
   * to U+001F, for which `str.isspace` also holds, are not skipped.
   */
  predicate IsSpace(c: char) {
    c == ' ' || ('\t' <= c <= '\r')
  }

  /** The number of white-space characters at the start of a text. */
  function LeadingSpaces(s: string): (k: nat)
    ensures k <= |s|
    ensures forall i | 0 <= i < k :: IsSpace(s[i])
    ensures k < |s| ==> !IsSpace(s[k])
  {
    if s != [] && IsSpace(s[0]) then 1 + LeadingSpaces(s[1..]) else 0
  }

  /** The number of white-space characters at the end of a text. */
  function TrailingSpaces(s: string): (k: nat)
    ensures k <= |s|
    ensures forall i | |s| - k <= i < |s| :: IsSpace(s[i])
    ensures k < |s| ==> !IsSpace(s[|s| - 1 - k])
  {
    if s != [] && IsSpace(s[|s| - 1]) then 1 + TrailingSpaces(s[..|s| - 1]) else 0
  }

  /** Python's `int` ignores white space on both sides of the number. */
  function Strip(s: string): string {
    var rest := s[LeadingSpaces(s)..];
    rest[..|rest| - TrailingSpaces(rest)]
  }

  /**
   * The body of a decimal literal as Python's `int` accepts it: digits, where
   * a single underscore may separate two digits.
   */
  predicate IsDigitGroup(s: string) {
    && |s| >= 1 && IsDigit(s[0]) && IsDigit(s[|s| - 1])
    && (forall i | 0 <= i < |s| :: IsDigit(s[i]) || s[i] == '_')
    && (forall i, j | 0 <= i < |s| && 0 <= j < |s| && j == i + 1 :: s[i] == '_' ==> s[j] != '_')
  }

  function DropUnderscores(s: string): (r: string)
    ensures (forall i | 0 <= i < |s| :: IsDigit(s[i]) || s[i] == '_') ==> AllDigits(r)
    ensures '_' !in s ==> r == s
  {
    if s == [] then [] else (if s[0] == '_' then [] else [s[0]]) + DropUnderscores(s[1..])
  }

  /**
   * The most digits Python's `int` converts from a decimal text; it raises
   * `ValueError` for a longer literal (the default of `sys.get_int_max_str_digits()`).
   */
  const MaxStrDigits: nat := 4300

  /** The value of an unsigned literal body, `None` when it is malformed or too long. */
  function ParseDigitGroup(body: string): Option<nat> {
    if IsDigitGroup(body) && |DropUnderscores(body)| <= MaxStrDigits then
      Some(DigitsValue(DropUnderscores(body)))
    else
      None
  }

  /** A stripped literal: an optional sign, then a digit group. */
  function ParseSigned(t: string): Option<int> {
    if |t| >= 1 && t[0] == '-' then
      match ParseDigitGroup(t[1..])
      case None => None
      case Some(v) => Some(-(v as int))
    else if |t| >= 1 && t[0] == '+' then
      match ParseDigitGroup(t[1..])
      case None => None
      case Some(v) => Some(v as int)
    else
      match ParseDigitGroup(t)
      case None => None
      case Some(v) => Some(v as int)
  }

  /**
   * `int(s)` for base 10: `None` where Python raises `ValueError`.
   */
  function ParseInt(s: string): Option<int> {
    ParseSigned(Strip(s))
  }

  /** A text without any digit, such as "abc", is rejected. */
  lemma ParseIntNeedsDigit(s: string)
    ensures ParseInt(s).Some? ==> exists i | 0 <= i < |s| :: IsDigit(s[i])
  {
    var a := LeadingSpaces(s);
    var rest := s[a..];
    var t := Strip(s);
    assert t == s[a..a + |t|];
    if ParseInt(s).Some? {
      if |t| >= 1 && (t[0] == '+' || t[0] == '-') {
        assert IsDigit(s[a + 1]);
      } else {
        assert IsDigit(s[a]);
      }
    }
  }

  /** A text that neither starts nor ends with white space is left alone by `Strip`. */
  lemma StripUnpadded(s: string)
    requires |s| >= 1 && !IsSpace(s[0]) && !IsSpace(s[|s| - 1])
    ensures Strip(s) == s
  {
    assert LeadingSpaces(s) == 0;
    assert s[0..] == s;
    assert TrailingSpaces(s) == 0;
  }

  /** The rendering of a natural number is a digit group that denotes that number. */
  lemma NatToStringIsDigitGroup(m: nat)
    ensures IsDigitGroup(NatToString(m))
    ensures DigitsValue(DropUnderscores(NatToString(m))) == m
  {
    var body := NatToString(m);
    assert forall i | 0 <= i < |body| :: body[i] != '_';
    assert DropUnderscores(body) == body;
    DigitsValueOfNatToString(m);
  }

  /** The digits of `str(m)` form a literal body of value `m`, unless there are too many. */
  lemma ParseDigitGroupOfNatToString(m: nat)
    requires |NatToString(m)| <= MaxStrDigits
    ensures ParseDigitGroup(NatToString(m)) == Some(m)
  {
    NatToStringIsDigitGroup(m);
  }

  /** `int(str(n)) == n` for a negative `n`. */
  lemma ParseIntNegative(n: int)
    requires n < 0 && |NatToString(-n)| <= MaxStrDigits
    ensures ParseInt(IntToString(n)) == Some(n)
  {
    var digits := NatToString(-n);
    var s := IntToString(n);
    assert s == "-" + digits;
    assert s[|s| - 1] == digits[|digits| - 1];
    StripUnpadded(s);
    assert s[1..] == digits;
    ParseDigitGroupOfNatToString(-n);
    assert ParseDigitGroup(s[1..]) == Some(-n);
    assert s[0] == '-';
    assert ParseSigned(s) == Some(n);
  }

  /** `int(str(n)) == n` for a non-negative `n`. */
  lemma ParseIntNatural(n: int)
    requires n >= 0 && |NatToString(n)| <= MaxStrDigits
    ensures ParseInt(IntToString(n)) == Some(n)
  {
    assert IntToString(n) == NatToString(n);
    StripUnpadded(NatToString(n));
    ParseDigitGroupOfNatToString(n);
  }

  /** The absolute value of an integer. */
  function Abs(n: int): nat {
    if n < 0 then -n else n
  }

  /** `int(str(n)) == n`: parsing the rendering of an integer of at most 4300 digits gives it back. */
  lemma ParseIntOfIntToString(n: int)
    requires |NatToString(Abs(n))| <= MaxStrDigits
    ensures ParseInt(IntToString(n)) == Some(n)
  {
    if n < 0 {
      ParseIntNegative(n);
    } else {
      ParseIntNatural(n);
    }
  }

  predicate AllSpaces(s: string) { forall i | 0 <= i < |s| :: IsSpace(s[i]) }

  /** White space before a text that does not start with white space is exactly what is counted. */
  lemma {:induction false} LeadingSpacesOfPadded(pre: string, x: string)
    requires AllSpaces(pre) && |x| >= 1 && !IsSpace(x[0])
    ensures LeadingSpaces(pre + x) == |pre|
  {
    if pre == [] {
      assert pre + x == x;
    } else {
      assert (pre + x)[1..] == pre[1..] + x;
      LeadingSpacesOfPadded(pre[1..], x);
    }
  }

  /** White space after a text that does not end with white space is exactly what is counted. */
  lemma {:induction false} TrailingSpacesOfPadded(x: string, post: string)
    requires AllSpaces(post) && |x| >= 1 && !IsSpace(x[|x| - 1])
    ensures TrailingSpaces(x + post) == |post|
  {
    if post == [] {
      assert x + post == x;
    } else {
      var s := x + post;
      assert s[..|s| - 1] == x + post[..|post| - 1];
      TrailingSpacesOfPadded(x, post[..|post| - 1]);
    }
  }

  /** `Strip` removes exactly the white space padding around a literal. */
  lemma StripPadded(pre: string, t: string, post: string)
    requires AllSpaces(pre) && AllSpaces(post)
    requires |t| >= 1 && !IsSpace(t[0]) && !IsSpace(t[|t| - 1])
    ensures Strip(pre + t + post) == t
  {
    var s := pre + t + post;
    assert s == pre + (t + post);
    LeadingSpacesOfPadded(pre, t + post);
    assert s[|pre|..] == t + post;
    TrailingSpacesOfPadded(t, post);
    assert (t + post)[..|t|] == t;
  }

  /**
   * A literal of more than 4300 digits is rejected, whatever its sign, its
   * underscores, its leading zeros and the white space around it; for
   * example "1" repeated 4301 times.
   */
  lemma ParseIntRejectsLongLiteral(pre: string, sign: string, body: string, post: string)
    requires AllSpaces(pre) && AllSpaces(post)
    requires sign == "" || sign == "+" || sign == "-"
    requires IsDigitGroup(body) && |DropUnderscores(body)| > MaxStrDigits
    ensures ParseInt(pre + sign + body + post) == None
  {
    var t := sign + body;
    assert t[|t| - 1] == body[|body| - 1];
    assert !IsSpace(t[0]) by {
      if sign == "" {
        assert t[0] == body[0];
      }
    }
    assert pre + sign + body + post == pre + t + post;
    StripPadded(pre, t, post);
    ParseSignedLong(sign, body);
  }

  /** A sign and a digit group of more than 4300 digits, without padding, is rejected. */
  lemma ParseSignedLong(sign: string, body: string)
    requires sign == "" || sign == "+" || sign == "-"
    requires |body| >= 1 && IsDigit(body[0]) && |DropUnderscores(body)| > MaxStrDigits
    ensures ParseSigned(sign + body) == None
  {
    var t := sign + body;
    assert ParseDigitGroup(body) == None;
    if sign == "" {
      assert t == body;
    } else {
      assert t[1..] == body;
    }
  }

  /** `10^k`. */
  function Pow10(k: nat): (p: nat)
    ensures p >= 1
  {
    if k == 0 then 1 else 10 * Pow10(k - 1)
  }

  /** A number below `10^k` has at most `k` digits. */
  lemma {:induction false} NatToStringLength(n: nat, k: nat)
    requires 1 <= k && n < Pow10(k)
    ensures |NatToString(n)| <= k
  {
    if n >= 10 {
      assert k >= 2;
      assert n / 10 < Pow10(k - 1);
      NatToStringLength(n / 10, k - 1);
    }
  }

  /** A larger number never has a shorter rendering. */
  lemma {:induction false} NatToStringLengthMonotone(a: nat, b: nat)
    requires a <= b
    ensures |NatToString(a)| <= |NatToString(b)|
  {
    if a >= 10 {
      NatToStringLengthMonotone(a / 10, b / 10);
    }
  }
}
