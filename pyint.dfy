/**
  Python's `int(s)` for a `str` argument in base 10, `str(n)` for an `int`,
  and the `%02d` format specification, which the bucket labels are built
  with.
*/
module PyInt {
  import opened Wrappers

  /** The characters `int()` ignores at either end of a `str`: the ASCII
      whitespace tab, line feed, vertical tab, form feed, carriage return
      and space, and the non-ASCII whitespace that `int()` first rewrites to
      a space. The ASCII separators U+001C to U+001F, which `isspace()`
      accepts, are not skipped: `int("\x1c9")` raises. */
  predicate IsSpace(c: char)
  {
    ('\t' <= c <= '\r') || c == ' ' || c == '\U{85}' || c == '\U{A0}'
    || c == '\U{1680}' || ('\U{2000}' <= c <= '\U{200A}') || c == '\U{2028}' || c == '\U{2029}'
    || c == '\U{202F}' || c == '\U{205F}' || c == '\U{3000}'
  }

  predicate IsDigit(c: char)
  {
    '0' <= c <= '9'
  }

  function DigitValue(c: char): nat
  {
    if IsDigit(c) then c as int - '0' as int else 0
  }

  function Digit(d: nat): (c: char)
    requires d < 10
    ensures IsDigit(c) && DigitValue(c) == d
  {
    ('0' as int + d) as char
  }

  // ---------------------------------------------------------------------
  // Stripping whitespace
  // ---------------------------------------------------------------------

  /** How many whitespace characters `s` starts with. */
  function LeadingSpaces(s: string): (k: nat)
    ensures k <= |s|
  {
    if |s| == 0 || !IsSpace(s[0]) then 0 else 1 + LeadingSpaces(s[1..])
  }

  /** How many whitespace characters `s` ends with. */
  function TrailingSpaces(s: string): (k: nat)
    ensures k <= |s|
  {
    if |s| == 0 || !IsSpace(s[|s| - 1]) then 0 else 1 + TrailingSpaces(s[..|s| - 1])
  }

  /** `LeadingSpaces(s)` counts the whole run of whitespace `s` starts with. */
  lemma {:induction false} LeadingSpacesRun(s: string)
    ensures forall i :: 0 <= i < LeadingSpaces(s) ==> IsSpace(s[i])
    ensures LeadingSpaces(s) < |s| ==> !IsSpace(s[LeadingSpaces(s)])
  {
    if |s| > 0 && IsSpace(s[0]) {
      LeadingSpacesRun(s[1..]);
      assert forall i :: 0 < i < |s| ==> s[i] == s[1..][i - 1];
    }
  }

  /** `TrailingSpaces(s)` counts the whole run of whitespace `s` ends with. */
  lemma {:induction false} TrailingSpacesRun(s: string)
    ensures forall i :: |s| - TrailingSpaces(s) <= i < |s| ==> IsSpace(s[i])
    ensures TrailingSpaces(s) < |s| ==> !IsSpace(s[|s| - 1 - TrailingSpaces(s)])
  {
    if |s| > 0 && IsSpace(s[|s| - 1]) {
      TrailingSpacesRun(s[..|s| - 1]);
    }
  }

  /** `s` without the leading and trailing whitespace `int()` skips
      (stated by `StripTrims`). */
  function Strip(s: string): string
  {
    var l := LeadingSpaces(s);
    if l == |s| then ""
    else
      LeadingSpacesRun(s);
      TrailingSpacesRun(s);
      s[l..|s| - TrailingSpaces(s)]
  }

  /** `Strip(s)` is the part of `s` left once the whitespace at both ends
      is cut off: it neither starts nor ends with whitespace, it sits in `s`
      after the leading whitespace, and everything of `s` around it is
      whitespace. */
  lemma StripTrims(s: string)
    ensures var r := Strip(s); var l := LeadingSpaces(s);
      && (|r| == 0 || (!IsSpace(r[0]) && !IsSpace(r[|r| - 1])))
      && l + |r| <= |s| && s[l..l + |r|] == r
      && (forall j :: 0 <= j < l ==> IsSpace(s[j]))
      && (forall j :: l + |r| <= j < |s| ==> IsSpace(s[j]))
  {
    LeadingSpacesRun(s);
    var l := LeadingSpaces(s);
    if l < |s| {
      TrailingSpacesRun(s);
      var e := |s| - TrailingSpaces(s);
      var r := s[l..e];
      assert Strip(s) == r;
      assert r[0] == s[l] && r[|r| - 1] == s[e - 1];
    }
  }

  /** `int()` raises on a string that starts with one of the ASCII
      separators U+001C to U+001F: it does not skip them, and they are
      neither a sign nor a digit. */
  lemma SeparatorNotSkipped(c: char, t: string)
    requires '\U{1C}' <= c <= '\U{1F}'
    ensures ParseInt([c] + t) == None
  {
    var s := [c] + t;
    assert s[0] == c && !IsSpace(c);
    assert LeadingSpaces(s) == 0;
    StripTrims(s);
    assert |Strip(s)| > 0 && Strip(s)[0] == c;
  }

  lemma StripUnspaced(s: string)
    requires |s| == 0 || (!IsSpace(s[0]) && !IsSpace(s[|s| - 1]))
    ensures Strip(s) == s
  {
    assert LeadingSpaces(s) == 0;
    assert s[0..] == s;
    assert |s| > 0 ==> TrailingSpaces(s) == 0;
  }

  // ---------------------------------------------------------------------
  // Digit strings
  // ---------------------------------------------------------------------

  /** A base-10 digit string as `int()` accepts it: ASCII digits, with single
      underscores allowed between two digits. */
  predicate IsDigitString(b: string)
  {
    && |b| > 0 && IsDigit(b[0]) && IsDigit(b[|b| - 1])
    && (forall i :: 0 <= i < |b| ==> IsDigit(b[i]) || b[i] == '_')
    && (forall i :: 0 < i < |b| ==> !(b[i - 1] == '_' && b[i] == '_'))
  }

  /** The value of a digit string, underscores skipped. */
  function DigitsValue(b: string): nat
  {
    if |b| == 0 then 0
    else if b[|b| - 1] == '_' then DigitsValue(b[..|b| - 1])
    else DigitsValue(b[..|b| - 1]) * 10 + DigitValue(b[|b| - 1])
  }

  /** The decimal digits of `n`, without leading zeros (what they are is
      stated by `DecimalDigits`). */
  function Decimal(n: nat): string
  {
    if n < 10 then [Digit(n)] else Decimal(n / 10) + [Digit(n % 10)]
  }

  /** `Decimal(n)` is a non-empty string of ASCII digits whose value is `n`. */
  lemma {:induction false} DecimalDigits(n: nat)
    ensures |Decimal(n)| >= 1
    ensures forall i :: 0 <= i < |Decimal(n)| ==> IsDigit(Decimal(n)[i])
    ensures DigitsValue(Decimal(n)) == n
  {
    if n >= 10 {
      DecimalDigits(n / 10);
      var r := Decimal(n);
      assert r[..|r| - 1] == Decimal(n / 10);
    }
  }

  /** Leading zeros do not change a digit string's value. */
  lemma {:induction false} LeadingZero(b: string)
    ensures DigitsValue("0" + b) == DigitsValue(b)
  {
    if |b| > 0 {
      var z := "0" + b;
      assert z[..|z| - 1] == "0" + b[..|b| - 1];
      assert z[|z| - 1] == b[|b| - 1];
      LeadingZero(b[..|b| - 1]);
    } else {
      assert "0" + b == "0";
    }
  }

  // ---------------------------------------------------------------------
  // int(s), str(n) and f"{n:02d}"
  // ---------------------------------------------------------------------

  /** `int(s)`: surrounding whitespace stripped, an optional sign, then a digit
      string; `None` where Python raises `ValueError`. */
  function ParseInt(s: string): Option<int>
  {
    var t := Strip(s);
    var signed := |t| > 0 && (t[0] == '-' || t[0] == '+');
    var body := if signed then t[1..] else t;
    var v: int := DigitsValue(body);
    if !IsDigitString(body) then None
    else if signed && t[0] == '-' then Some(-v)
    else Some(v)
  }

  /** `str(n)`. */
  function IntToString(n: int): string
  {
    if n < 0 then "-" + Decimal(-n) else Decimal(n)
  }

  /** `f"{h:02d}"`: at least two characters, zero-padded after the sign. */
  function Format02(h: int): string
  {
    if h < 0 then "-" + Decimal(-h)
    else if h < 10 then "0" + Decimal(h)
    else Decimal(h)
  }

  lemma DigitsAreDigitString(b: string)
    requires |b| >= 1 && forall i :: 0 <= i < |b| ==> IsDigit(b[i])
    ensures IsDigitString(b)
  {
  }

  /** `int()` of a string of ASCII digits. */
  lemma ParseDigits(b: string)
    requires |b| >= 1 && forall i :: 0 <= i < |b| ==> IsDigit(b[i])
    ensures ParseInt(b) == Some(DigitsValue(b) as int)
  {
    StripUnspaced(b);
    DigitsAreDigitString(b);
    ParseDigitString(b);
  }

  lemma ParseDigitString(b: string)
    requires IsDigitString(b)
    requires Strip(b) == b
    ensures ParseInt(b) == Some(DigitsValue(b) as int)
  {
  }

  /** `int()` of a minus sign followed by ASCII digits of value `v`. */
  lemma ParseNegative(b: string, v: nat)
    requires |b| >= 1 && forall i :: 0 <= i < |b| ==> IsDigit(b[i])
    requires DigitsValue(b) == v
    ensures ParseInt("-" + b) == Some(-(v as int))
  {
    var n := "-" + b;
    assert n[0] == '-';
    assert n[|n| - 1] == b[|b| - 1];
    StripUnspaced(n);
    DigitsAreDigitString(b);
    ParseNegativeDigitString(b, v);
  }

  lemma ParseNegativeDigitString(b: string, v: nat)
    requires IsDigitString(b) && DigitsValue(b) == v
    requires Strip("-" + b) == "-" + b
    ensures ParseInt("-" + b) == Some(-(v as int))
  {
    var n := "-" + b;
    assert n[0] == '-' && n[1..] == b;
  }

  /** `int()` of a plus sign followed by ASCII digits is their value. */
  lemma ParsePositive(b: string)
    requires |b| >= 1 && forall i :: 0 <= i < |b| ==> IsDigit(b[i])
    ensures ParseInt("+" + b) == Some(DigitsValue(b) as int)
  {
    var n := "+" + b;
    assert n[0] == '+';
    assert n[|n| - 1] == b[|b| - 1];
    StripUnspaced(n);
    DigitsAreDigitString(b);
    ParsePositiveDigitString(b);
  }

  lemma ParsePositiveDigitString(b: string)
    requires IsDigitString(b)
    requires Strip("+" + b) == "+" + b
    ensures ParseInt("+" + b) == Some(DigitsValue(b) as int)
  {
    var n := "+" + b;
    assert n[0] == '+' && n[1..] == b;
  }

  /** `int()` of the digits of `n`. */
  lemma ParseDecimal(n: nat)
    ensures ParseInt(Decimal(n)) == Some(n)
  {
    var b := Decimal(n);
    DecimalDigits(n);
    ParseDigits(b);
  }

  /** `int()` of a minus sign and the digits of `n`. */
  lemma ParseMinusDecimal(n: nat)
    ensures ParseInt("-" + Decimal(n)) == Some(-(n as int))
  {
    DecimalDigits(n);
    ParseNegative(Decimal(n), n);
  }

  /** `int()` of a zero and the digits of `n`. */
  lemma ParseZeroDecimal(n: nat)
    ensures ParseInt("0" + Decimal(n)) == Some(n)
  {
    var b := Decimal(n);
    DecimalDigits(n);
    var s := "0" + b;
    assert forall i :: 0 <= i < |s| ==> IsDigit(s[i]);
    ParseDigits(s);
    LeadingZero(b);
  }

  /** `int(str(n)) == n`. */
  lemma ParseIntToString(n: int)
    ensures ParseInt(IntToString(n)) == Some(n)
  {
    if n < 0 {
      var m: nat := -n;
      var digits := Decimal(m);
      assert IntToString(n) == "-" + digits;
      ParseMinusDecimal(m);
    } else {
      assert IntToString(n) == Decimal(n);
      ParseDecimal(n);
    }
  }

  /** `int(f"{h:02d}") == h`. */
  lemma ParseFormat02(h: int)
    ensures ParseInt(Format02(h)) == Some(h)
  {
    if h < 0 {
      var n: nat := -h;
      var digits := Decimal(n);
      assert Format02(h) == "-" + digits;
      ParseMinusDecimal(n);
    } else if h < 10 {
      assert Format02(h) == "0" + Decimal(h);
      ParseZeroDecimal(h);
    } else {
      assert Format02(h) == Decimal(h);
      ParseDecimal(h);
    }
  }

  /** `f"{h:02d}"` holds digits and a sign only, and takes exactly two
      characters for two-digit hours. */
  lemma Format02Shape(h: int)
    ensures forall i :: 0 <= i < |Format02(h)| ==> IsDigit(Format02(h)[i]) || Format02(h)[i] == '-'
    ensures 0 <= h < 100 ==> |Format02(h)| == 2
  {
    DecimalDigits(if h < 0 then -h else h);
    if 10 <= h < 100 {
      assert Decimal(h) == Decimal(h / 10) + [Digit(h % 10)];
    }
  }
}
