/** The `YYYY-MM-DD` date key: `formatDate` writes the local calendar
    fields, `parseDateKST` splits the key on '-' and rebuilds the date from
    the three numbers (never through a generic date-string parser). */
module DateKey {
  import opened Types
  import opened Gregorian

  predicate IsDigit(c: char)
  {
    '0' <= c <= '9'
  }

  predicate AllDigits(s: string)
  {
    forall i :: 0 <= i < |s| ==> IsDigit(s[i])
  }

  function DigitChar(d: int): (c: char)
    requires 0 <= d < 10
    ensures IsDigit(c) && c as int - '0' as int == d
  {
    (('0' as int) + d) as char
  }

  /** `String(n)` for a natural number: decimal digits, no leading zero. */
  function NatToString(n: nat): (s: string)
    ensures |s| >= 1 && AllDigits(s)
    decreases n
  {
    if n < 10 then [DigitChar(n)] else NatToString(n / 10) + [DigitChar(n % 10)]
  }

  /** `String(i)` for an integer. */
  function IntToString(i: int): string
  {
    if i < 0 then "-" + NatToString(-i) else NatToString(i)
  }

  /** `s.padStart(2, '0')`: zeros in front up to length 2; a longer
      string is left alone. */
  function PadStart2(s: string): (r: string)
    ensures |r| == if |s| < 2 then 2 else |s|
    ensures |s| >= 2 ==> r == s
    ensures |s| < 2 ==> r[2 - |s|..] == s && forall i :: 0 <= i < 2 - |s| ==> r[i] == '0'
  {
    if |s| == 0 then "00" else if |s| == 1 then "0" + s else s
  }

  /** A key as written for a four-digit year: `YYYY-MM-DD`. */
  predicate IsCanonicalKey(s: string)
  {
    |s| == 10 && s[4] == '-' && s[7] == '-' &&
    AllDigits(s[..4]) && AllDigits(s[5..7]) && AllDigits(s[8..])
  }

  lemma NatToStringLength(n: nat)
    ensures n < 10 ==> |NatToString(n)| == 1
    ensures 10 <= n < 100 ==> |NatToString(n)| == 2
    ensures 1000 <= n < 10000 ==> |NatToString(n)| == 4
  {
    if 1000 <= n < 10000 {
      assert |NatToString(n / 10 / 10)| == 2;
    }
  }

  /** `formatDate`: the year, then the one-based month and the day, each
      padded to two digits, joined by '-'. A four-digit year gives a
      canonical ten-character key. */
  function FormatDate(d: Date): (s: string)
    ensures ValidDate(d) && 1000 <= d.year <= 9999 ==> IsCanonicalKey(s)
  {
    var y, m, dd := IntToString(d.year), PadStart2(IntToString(d.month + 1)), PadStart2(IntToString(d.day));
    var s := y + "-" + m + "-" + dd;
    if ValidDate(d) && 1000 <= d.year <= 9999 then
      NatToStringLength(d.year);
      NatToStringLength(d.month + 1);
      NatToStringLength(d.day);
      assert |y| == 4 && |m| == 2 && |dd| == 2;
      assert s[..4] == y;
      assert s[5..7] == m;
      assert s[8..] == dd;
      s
    else s
  }

  /** `s.split(sep)`: the pieces between separators, always at least one. */
  function Split(s: string, sep: char): (parts: seq<string>)
    ensures |parts| >= 1
  {
    if s == [] then [[]]
    else
      var rest := Split(s[1..], sep);
      if s[0] == sep then [[]] + rest else [[s[0]] + rest[0]] + rest[1..]
  }

  /** The value of a string of decimal digits (leading zeros allowed). */
  function DigitsValue(s: string): nat
    requires AllDigits(s)
  {
    if s == [] then 0
    else DigitsValue(s[..|s| - 1]) * 10 + (s[|s| - 1] as int - '0' as int)
  }

  /** `Number(s)` on the strings a date key splits into: the empty string
      is 0, a run of decimal digits is its value, anything else is NaN. */
  function NumberValue(s: string): Option<nat>
  {
    if AllDigits(s) then Some(DigitsValue(s)) else None
  }

  /** `parseDateKST`: split on '-', convert the first three pieces with
      `Number`, and build the local date `new Date(year, month - 1, day)`.
      A NaN piece, a missing piece or a date outside the JS time range
      gives an invalid date, here `None`. */
  function ParseDate(s: string): (r: Option<Date>)
    ensures r.Some? ==> ValidDate(r.value) && InTimeRange(r.value)
  {
    var parts := Split(s, '-');
    if |parts| < 3 then None
    else
      match (NumberValue(parts[0]), NumberValue(parts[1]), NumberValue(parts[2]))
      case (Some(y), Some(m), Some(d)) =>
        var date := NewDate(y, m as int - 1, d);
        if InTimeRange(date) then Some(date) else None
      case _ => None
  }

  lemma {:induction false} SplitWithoutSeparator(a: string, sep: char)
    requires sep !in a
    ensures Split(a, sep) == [a]
  {
    if a != [] {
      SplitWithoutSeparator(a[1..], sep);
      assert [a[0]] + a[1..] == a;
    }
  }

  lemma {:induction false} SplitAtSeparator(a: string, b: string, sep: char)
    requires sep !in a
    ensures Split(a + [sep] + b, sep) == [a] + Split(b, sep)
  {
    if a == [] {
      assert a + [sep] + b == [sep] + b;
      assert ([sep] + b)[1..] == b;
    } else {
      assert (a + [sep] + b)[1..] == a[1..] + [sep] + b;
      SplitAtSeparator(a[1..], b, sep);
      assert [a[0]] + a[1..] == a;
    }
  }

  lemma {:induction false} DigitsValueOfNat(n: nat)
    ensures DigitsValue(NatToString(n)) == n
    decreases n
  {
    if n >= 10 {
      var prefix := NatToString(n / 10);
      var s := prefix + [DigitChar(n % 10)];
      assert s[..|s| - 1] == prefix;
      DigitsValueOfNat(n / 10);
    }
  }

  lemma {:induction false} DigitsValueLeadingZero(s: string)
    requires AllDigits(s)
    ensures AllDigits("0" + s) && DigitsValue("0" + s) == DigitsValue(s)
    decreases |s|
  {
    var z := "0" + s;
    assert AllDigits(z) by {
      forall i | 0 <= i < |z| ensures IsDigit(z[i]) {
        if i > 0 { assert z[i] == s[i - 1]; }
      }
    }
    if s != [] {
      var t := s[..|s| - 1];
      assert AllDigits(t) by {
        forall i | 0 <= i < |t| ensures IsDigit(t[i]) { assert t[i] == s[i]; }
      }
      DigitsValueLeadingZero(t);
      assert z[..|z| - 1] == "0" + t;
    }
  }

  /** A padded field decodes to the number it was printed from. */
  lemma PaddedFieldValue(n: nat)
    requires n < 100
    ensures AllDigits(PadStart2(NatToString(n))) && '-' !in PadStart2(NatToString(n))
    ensures NumberValue(PadStart2(NatToString(n))) == Some(n)
  {
    NatToStringLength(n);
    DigitsValueOfNat(n);
    var s := NatToString(n);
    if |s| == 1 {
      DigitsValueLeadingZero(s);
    }
    var p := PadStart2(s);
    assert '-' !in p by {
      forall i | 0 <= i < |p| ensures p[i] != '-' { assert IsDigit(p[i]); }
    }
  }

  lemma SplitThree(a: string, b: string, c: string)
    requires '-' !in a && '-' !in b && '-' !in c
    ensures Split(a + "-" + b + "-" + c, '-') == [a, b, c]
  {
    assert a + "-" + b + "-" + c == a + ['-'] + (b + ['-'] + c);
    SplitAtSeparator(a, b + ['-'] + c, '-');
    SplitAtSeparator(b, c, '-');
    SplitWithoutSeparator(c, '-');
  }

  /** A formatted date splits into three pieces that read back as the
      year, the 1-based month and the day. */
  lemma FormatDateFields(d: Date)
    requires ValidDate(d) && d.year >= 0
    ensures var parts := Split(FormatDate(d), '-');
      |parts| == 3 && NumberValue(parts[0]) == Some(d.year) &&
      NumberValue(parts[1]) == Some(d.month + 1) && NumberValue(parts[2]) == Some(d.day)
  {
    var y, m, dd := NatToString(d.year), PadStart2(NatToString(d.month + 1)), PadStart2(NatToString(d.day));
    assert IntToString(d.year) == y;
    assert FormatDate(d) == y + "-" + m + "-" + dd;
    assert '-' !in y by {
      forall i | 0 <= i < |y| ensures y[i] != '-' { assert IsDigit(y[i]); }
    }
    PaddedFieldValue(d.month + 1);
    PaddedFieldValue(d.day);
    DigitsValueOfNat(d.year);
    SplitThree(y, m, dd);
    assert NumberValue(y) == Some(d.year);
  }

  /** Parsing a formatted date gives the date back, for every valid date
      in the JS time range whose year has at least three digits (below 100
      the year would be read as 19xx). This covers February 29th of leap
      years and the December 31st to January 1st rollover. */
  lemma ParseFormatRoundTrip(d: Date)
    requires ValidDate(d) && d.year >= 100 && InTimeRange(d)
    ensures ParseDate(FormatDate(d)) == Some(d)
  {
    FormatDateFields(d);
    ParseDateOfFields(FormatDate(d), d.year, d.month + 1, d.day);
    assert d.month / 12 == 0 && d.month % 12 == d.month;
    MakeDateInMonth(d.year, d.month, d.day);
    assert NewDate(d.year, d.month, d.day) == d;
  }

  lemma ParseDateOfFields(s: string, y: nat, m: nat, d: nat)
    requires var parts := Split(s, '-');
      |parts| >= 3 && NumberValue(parts[0]) == Some(y) &&
      NumberValue(parts[1]) == Some(m) && NumberValue(parts[2]) == Some(d)
    ensures var date := NewDate(y, m - 1, d);
      ParseDate(s) == if InTimeRange(date) then Some(date) else None
  {
  }
}
