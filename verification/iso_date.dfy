/**
 The calendar-date part of an ISO 8601 timestamp, as JavaScript's
 `toISOString()` writes it and `split("T")[0]` keeps it: `YYYY-MM-DD` for years
 0 through 9999, and the expanded form `+YYYYYY-MM-DD` / `-YYYYYY-MM-DD` for
 every other year. Day records are keyed by this text, so `Format` must be
 one-to-one; `Parse` is its inverse on exactly the strings `Format` produces.
 */
module IsoDate {
  import opened Wrappers
  import opened CivilDate

  function Pow10(n: nat): (r: nat)
    ensures r >= 1
  {
    if n == 0 then 1 else 10 * Pow10(n - 1)
  }

  predicate IsDigit(c: char) {
    '0' <= c <= '9'
  }

  predicate AllDigits(s: string) {
    forall i :: 0 <= i < |s| ==> IsDigit(s[i])
  }

  function DigitChar(v: nat): (c: char)
    requires v < 10
    ensures IsDigit(c)
  {
    (('0' as int) + v) as char
  }

  function DigitValue(c: char): (v: nat)
    requires IsDigit(c)
    ensures v < 10
  {
    (c as int) - ('0' as int)
  }

  /** `n` written in decimal with exactly `width` digits, zero-padded on the left. */
  function Digits(n: nat, width: nat): (s: string)
    requires n < Pow10(width)
    ensures |s| == width
    ensures AllDigits(s)
  {
    if width == 0 then "" else Digits(n / 10, width - 1) + [DigitChar(n % 10)]
  }

  /** The number a string of decimal digits denotes. */
  function DigitsValue(s: string): (n: nat)
    requires AllDigits(s)
    ensures n < Pow10(|s|)
  {
    if |s| == 0 then 0
    else DigitsValue(s[..|s| - 1]) * 10 + DigitValue(s[|s| - 1])
  }

  lemma {:induction false} DigitsThenValue(n: nat, width: nat)
    requires n < Pow10(width)
    ensures DigitsValue(Digits(n, width)) == n
    decreases width
  {
    if width > 0 {
      var s := Digits(n, width);
      assert s[..width - 1] == Digits(n / 10, width - 1);
      DigitsThenValue(n / 10, width - 1);
      assert DigitValue(DigitChar(n % 10)) == n % 10;
    }
  }

  lemma {:induction false} ValueThenDigits(s: string)
    requires AllDigits(s)
    ensures Digits(DigitsValue(s), |s|) == s
    decreases |s|
  {
    if |s| > 0 {
      var init, last := s[..|s| - 1], s[|s| - 1];
      ValueThenDigits(init);
      var a, b := DigitsValue(init), DigitValue(last);
      DivMod10(a, b);
      assert DigitChar(b) == last;
      assert Digits(a * 10 + b, |s|) == Digits(a, |s| - 1) + [DigitChar(b)];
      assert s == init + [last];
    }
  }

  lemma DivMod10(a: nat, b: nat)
    requires b < 10
    ensures (a * 10 + b) / 10 == a && (a * 10 + b) % 10 == b
  {
  }

  /** Years the expanded six-digit form can hold (JavaScript's own date range is narrower). */
  predicate Formattable(d: Date) {
    Valid(d) && -999999 <= d.year <= 999999
  }

  function YearText(y: int): (s: string)
    requires -999999 <= y <= 999999
    ensures |s| == 4 || |s| == 7
  {
    if 0 <= y <= 9999 then Digits(y, 4)
    else if y < 0 then "-" + Digits(-y, 6)
    else "+" + Digits(y, 6)
  }

  /** The date text of `d`. */
  function Format(d: Date): (s: string)
    requires Formattable(d)
    ensures |s| == (if 0 <= d.year <= 9999 then 10 else 13)
    ensures s[|s| - 6] == '-' && s[|s| - 3] == '-'
  {
    YearText(d.year) + "-" + Digits(d.month, 2) + "-" + Digits(d.day, 2)
  }

  /** The year a year text denotes, when it is written in the form `YearText` uses for it. */
  function ParseYear(t: string): (r: Option<int>)
    ensures r.Some? ==> -999999 <= r.value <= 999999
  {
    if |t| == 4 && AllDigits(t) then
      Some(DigitsValue(t))
    else if |t| == 7 && (t[0] == '+' || t[0] == '-') && AllDigits(t[1..]) then
      var v: int := DigitsValue(t[1..]);
      assert Pow10(6) == 1000000;
      if t[0] == '+' && v > 9999 then Some(v)
      else if t[0] == '-' && v > 0 then Some(-v)
      else None
    else
      None
  }

  /** The date a date text denotes, or `None` for text `Format` never writes. */
  function Parse(s: string): (r: Option<Date>)
    ensures r.Some? ==> Formattable(r.value)
  {
    var n := |s|;
    if n < 10 then None
    else
      var head, tail := s[..n - 6], s[n - 6..];
      if tail[0] != '-' || tail[3] != '-' || !AllDigits(tail[1..3]) || !AllDigits(tail[4..]) then None
      else
        match ParseYear(head)
        case None => None
        case Some(y) =>
          var d := Date(y, DigitsValue(tail[1..3]), DigitsValue(tail[4..]));
          if Valid(d) then Some(d) else None
  }

  lemma YearRoundTrip(y: int)
    requires -999999 <= y <= 999999
    ensures ParseYear(YearText(y)) == Some(y)
  {
    var t := YearText(y);
    if 0 <= y <= 9999 {
      DigitsThenValue(y, 4);
    } else {
      var v := if y < 0 then -y else y;
      assert t[1..] == Digits(v, 6);
      DigitsThenValue(v, 6);
    }
  }

  lemma YearTextOfParse(t: string)
    requires ParseYear(t).Some?
    ensures YearText(ParseYear(t).value) == t
  {
    if |t| == 4 && AllDigits(t) {
      ValueThenDigits(t);
    } else {
      ValueThenDigits(t[1..]);
      assert t == [t[0]] + t[1..];
    }
  }

  /** Reading back the text of a date gives the date. */
  lemma FormatThenParse(d: Date)
    requires Formattable(d)
    ensures Parse(Format(d)) == Some(d)
  {
    var s := Format(d);
    var n := |s|;
    var y := YearText(d.year);
    assert s[..n - 6] == y;
    assert s[n - 6..] == "-" + Digits(d.month, 2) + "-" + Digits(d.day, 2);
    var tail := s[n - 6..];
    assert tail[1..3] == Digits(d.month, 2);
    assert tail[4..] == Digits(d.day, 2);
    YearRoundTrip(d.year);
    DigitsThenValue(d.month, 2);
    DigitsThenValue(d.day, 2);
  }

  /** Every text that parses is exactly the text of the date it denotes. */
  lemma ParseThenFormat(s: string)
    requires Parse(s).Some?
    ensures Format(Parse(s).value) == s
  {
    var n := |s|;
    var head, tail := s[..n - 6], s[n - 6..];
    var d := Parse(s).value;
    assert d == Date(ParseYear(head).value, DigitsValue(tail[1..3]), DigitsValue(tail[4..]));
    YearTextOfParse(head);
    ValueThenDigits(tail[1..3]);
    ValueThenDigits(tail[4..]);
    SplitDateText(s);
  }

  /** A date text is its year text, a dash, two month characters, a dash and two day characters. */
  lemma SplitDateText(s: string)
    requires |s| >= 10 && s[|s| - 6] == '-' && s[|s| - 3] == '-'
    ensures s == s[..|s| - 6] + "-" + s[|s| - 6..][1..3] + "-" + s[|s| - 6..][4..]
  {
    var n := |s|;
    var tail := s[n - 6..];
    assert tail == [tail[0]] + tail[1..3] + [tail[3]] + tail[4..];
    assert s == s[..n - 6] + tail;
  }

  /** Two dates share a text only if they are the same date. */
  lemma FormatInjective(a: Date, b: Date)
    requires Formattable(a) && Formattable(b)
    ensures Format(a) == Format(b) <==> a == b
  {
    FormatThenParse(a);
    FormatThenParse(b);
  }
}
