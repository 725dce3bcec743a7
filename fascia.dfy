/**
  The half-hour bucket of a visit: `fillna("00:00")` on the `orario`
  column followed by `fascia_30min`, in stats_clienti_web.py.
*/
module Fascia {
  import opened Wrappers
  import opened Text
  import opened PyInt

  /** A cell of a column of the table built from the fetched documents:
      the document lacks the field, holds null, a string, or a value of
      another type (a number, a timestamp). Pandas shows the first two
      alike, as a missing value. */
  datatype Cell = Absent | Null | Str(s: string) | NonStr

  /** `fillna("00:00")` applied to one cell. */
  function FillNa(c: Cell): Cell
  {
    if c.Absent? || c.Null? then Str("00:00") else c
  }

  /** `h, m = map(int, o.split(":"))`; `None` where that raises: the value is
      not a string (no `split`), it does not split into exactly two pieces on
      `":"`, or a piece is not an integer for `int()`. */
  function ParseTime(c: Cell): Option<(int, int)>
  {
    match c
    case Str(o) =>
      var parts := Split(o, ':');
      if |parts| == 2 && ParseInt(parts[0]).Some? && ParseInt(parts[1]).Some? then
        Some((ParseInt(parts[0]).value, ParseInt(parts[1]).value))
      else None
    case _ => None
  }

  /** The minute field of a label: `0 if m < 30 else 30`, formatted `%02d`. */
  function HalfHour(m: int): string
  {
    if m < 30 then "00" else "30"
  }

  /** `fascia_30min(o)`, with `"00:00"` from the `except` branch. */
  function Fascia30Min(c: Cell): string
  {
    match ParseTime(c)
    case None => "00:00"
    case Some((h, m)) => Format02(h) + ":" + HalfHour(m)
  }

  /** The shape of a bucket label: an hour as `%02d` prints some integer,
      a colon, and `00` or `30`. Hours are not range-checked, so `-1:00` and
      `25:30` are labels too. */
  ghost predicate IsLabel(s: string)
  {
    && |s| >= 3 && s[|s| - 3] == ':' && (s[|s| - 2..] == "00" || s[|s| - 2..] == "30")
    && exists h :: Format02(h) == s[..|s| - 3]
  }

  lemma LabelParts(h: int, half: string)
    requires half == "00" || half == "30"
    ensures var s := Format02(h) + ":" + half;
      |s| >= 3 && s[..|s| - 3] == Format02(h) && s[|s| - 3] == ':' && s[|s| - 2..] == half
  {
  }

  /** Every output of `fascia_30min` is a label, so its minute field is
      `00` or `30`. */
  lemma LabelShape(c: Cell)
    ensures IsLabel(Fascia30Min(c))
  {
    match ParseTime(c)
    case None =>
      assert Format02(0) == "00";
      LabelParts(0, "00");
      assert Fascia30Min(c) == Format02(0) + ":" + "00";
    case Some((h, m)) =>
      LabelParts(h, HalfHour(m));
  }

  /** `int("00") == 0` and `int("30") == 30`. */
  lemma ParseHalves()
    ensures ParseInt("00") == Some(0) && ParseInt("30") == Some(30)
  {
    StripUnspaced("00");
    StripUnspaced("30");
    assert DigitsValue("0") == 0;
    assert "00"[..1] == "0";
    assert DigitsValue("3") == 3;
    assert "30"[..1] == "3";
  }

  /** A string of the form `a:b`, neither piece holding a colon, parses to
      the pair of `int(a)` and `int(b)` when both are integers, and raises
      (so falls back) otherwise. */
  lemma ParseTimeOfPieces(a: string, b: string)
    requires ':' !in a && ':' !in b
    ensures ParseTime(Str(a + ":" + b)) ==
      if ParseInt(a).Some? && ParseInt(b).Some? then Some((ParseInt(a).value, ParseInt(b).value))
      else None
  {
    SplitJoin([a, b], ':');
    assert Join([a, b], ':') == a + ":" + b by {
      assert [a, b][1..] == [b];
    }
  }

  /** A string that does not hold exactly one colon falls back to `"00:00"`. */
  lemma ParseTimeNeedsOneColon(o: string)
    requires Occurrences(o, ':') != 1
    ensures ParseTime(Str(o)) == None
    ensures Fascia30Min(Str(o)) == "00:00"
  {
    SplitPieces(o, ':');
  }

  /** A time that starts with one of the ASCII separators U+001C to U+001F
      does not parse, because `int()` does not skip them, so it falls back to
      `"00:00"`. */
  lemma SeparatorBeforeHour(c: char, a: string, b: string)
    requires '\U{1C}' <= c <= '\U{1F}'
    requires ':' !in a && ':' !in b
    ensures Fascia30Min(Str([c] + a + ":" + b)) == "00:00"
  {
    SeparatorNotSkipped(c, a);
    ParseTimeOfPieces([c] + a, b);
  }

  /** Applying `fascia_30min` to one of its labels gives the label back. */
  lemma IdempotentOnLabels(s: string)
    requires IsLabel(s)
    ensures Fascia30Min(Str(s)) == s
  {
    var hour := s[..|s| - 3];
    var half := s[|s| - 2..];
    var h :| Format02(h) == hour;
    assert s == hour + ":" + half;
    LabelOfPieces(h, half);
  }

  lemma LabelOfPieces(h: int, half: string)
    requires half == "00" || half == "30"
    ensures Fascia30Min(Str(Format02(h) + ":" + half)) == Format02(h) + ":" + half
  {
    var hour := Format02(h);
    assert ':' !in hour by { Format02Shape(h); }
    ParseTimeOfPieces(hour, half);
    ParseFormat02(h);
    ParseHalves();
    var m := if half == "00" then 0 else 30;
    assert ParseTime(Str(hour + ":" + half)) == Some((h, m));
    assert HalfHour(m) == half;
  }

  /** Bucketing is idempotent. */
  lemma Idempotent(c: Cell)
    ensures Fascia30Min(Str(Fascia30Min(c))) == Fascia30Min(c)
  {
    LabelShape(c);
    IdempotentOnLabels(Fascia30Min(c));
  }

  /** For a time that parses to `h` and `m`, the label's hour field reads back
      as `h` and its minute field is `00` exactly when `m < 30`. */
  lemma LabelOfTime(c: Cell, h: int, m: int)
    requires ParseTime(c) == Some((h, m))
    ensures var r := Fascia30Min(c);
      |r| >= 3 && ParseInt(r[..|r| - 3]) == Some(h) && r[|r| - 3] == ':'
      && (r[|r| - 2..] == "00" <==> m < 30) && (r[|r| - 2..] == "30" <==> m >= 30)
  {
    var r := Fascia30Min(c);
    assert r == Format02(h) + ":" + HalfHour(m);
    LabelParts(h, HalfHour(m));
    assert r[..|r| - 3] == Format02(h);
    ParseFormat02(h);
  }

  /** The bucket is `"00:00"` exactly when the time is missing, is not a
      string, does not parse, or parses to hour 0 and a minute below 30. */
  lemma MidnightBucket(c: Cell)
    ensures Fascia30Min(c) == "00:00" <==>
      ParseTime(c).None? || (ParseTime(c).value.0 == 0 && ParseTime(c).value.1 < 30)
  {
    if ParseTime(c).Some? {
      var (h, m) := ParseTime(c).value;
      assert Fascia30Min(c) == Format02(h) + ":" + HalfHour(m);
      MidnightLabel(h, m);
    }
  }

  /** A missing time is filled with `"00:00"`, and a value that is not a
      string cannot be split: both land in the `"00:00"` bucket. */
  lemma MissingTimeBucket(c: Cell)
    requires c.Absent? || c.Null? || c.NonStr?
    ensures Fascia30Min(FillNa(c)) == "00:00"
  {
    if !c.NonStr? {
      assert Format02(0) == "00";
      LabelOfPieces(0, "00");
      assert FillNa(c) == Str(Format02(0) + ":" + "00");
    }
  }

  lemma MidnightLabel(h: int, m: int)
    ensures Format02(h) + ":" + HalfHour(m) == "00:00" <==> h == 0 && m < 30
  {
    var r := Format02(h) + ":" + HalfHour(m);
    LabelParts(h, HalfHour(m));
    if r == "00:00" {
      assert Format02(h) == r[..|r| - 3] == "00";
      ParseFormat02(h);
      ParseHalves();
      assert HalfHour(m) == r[|r| - 2..] == "00";
    }
    assert Format02(0) == "00";
  }

  /** For hours in 0..99 the labels compare as the times they start: the
      string order the group-by sorts with is chronological there. */
  lemma LabelOrderIsChronological(h1: int, m1: int, h2: int, m2: int)
    requires 0 <= h1 < 100 && 0 <= h2 < 100
    ensures Less(Format02(h1) + ":" + HalfHour(m1), Format02(h2) + ":" + HalfHour(m2))
      <==> h1 < h2 || (h1 == h2 && m1 < 30 <= m2)
  {
    TwoDigits(h1);
    TwoDigits(h2);
    var a := Format02(h1) + ":" + HalfHour(m1);
    var b := Format02(h2) + ":" + HalfHour(m2);
    assert a == [Digit(h1 / 10), Digit(h1 % 10), ':', HalfHour(m1)[0], '0'];
    assert b == [Digit(h2 / 10), Digit(h2 % 10), ':', HalfHour(m2)[0], '0'];
    assert a[1..][1..] == a[2..] && b[1..][1..] == b[2..];
    assert a[2..][1..] == a[3..] && b[2..][1..] == b[3..];
    assert a[3..][1..] == a[4..] && b[3..][1..] == b[4..];
    assert a[4..] == b[4..] == "0";
    LessIrreflexive("0");
    assert Less(a[3..], b[3..]) <==> m1 < 30 <= m2;
    assert Less(a[2..], b[2..]) == Less(a[3..], b[3..]);
    assert Less(a[1..], b[1..]) <==> h1 % 10 < h2 % 10 || (h1 % 10 == h2 % 10 && m1 < 30 <= m2);
  }

  lemma TwoDigits(h: int)
    requires 0 <= h < 100
    ensures Format02(h) == [Digit(h / 10), Digit(h % 10)]
  {
    if h >= 10 {
      assert Decimal(h) == Decimal(h / 10) + [Digit(h % 10)];
    }
  }
}
