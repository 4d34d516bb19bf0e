/** The day key under which tasks are stored: the date part of
    `toISOString()`, the full-date form `YYYY-MM-DD` of section 5.6 of
    RFC 3339, with the expanded `+YYYYYY` / `-YYYYYY` year that the Date
    Time String Format of ECMA-262 (section 21.4.1) uses outside years
    0..9999. The key is formed from the local date record; the shift that
    toISOString's UTC conversion can cause is not modelled. A parser is
    the partner that shows two valid dates never share a key. */
module DayKeys {
  import opened Wrappers
  import opened Gregorian

  predicate IsDigit(c: char) {
    '0' <= c <= '9'
  }

  predicate AllDigits(s: string) {
    forall i :: 0 <= i < |s| ==> IsDigit(s[i])
  }

  function DigitChar(n: int): (c: char)
    requires 0 <= n < 10
    ensures IsDigit(c)
  {
    ('0' as int + n) as char
  }

  function DigitValue(c: char): (n: nat)
    requires IsDigit(c)
    ensures n < 10 && DigitChar(n) == c
  {
    c as int - '0' as int
  }

  function Pow10(w: nat): (p: nat)
    ensures p >= 1
  {
    if w == 0 then 1 else 10 * Pow10(w - 1)
  }

  /** Decimal digits of `n`, left-padded with '0' to at least `width` characters. */
  function PadDigits(n: nat, width: nat): (s: string)
    ensures |s| >= 1 && AllDigits(s)
    decreases n + width
  {
    (if n >= 10 || width > 1 then PadDigits(n / 10, if width > 0 then width - 1 else 0) else [])
      + [DigitChar(n % 10)]
  }

  /** Value of a string of decimal digits. */
  function ParseDigits(s: string): nat
    requires AllDigits(s)
  {
    if s == [] then 0 else ParseDigits(s[..|s| - 1]) * 10 + DigitValue(s[|s| - 1])
  }

  lemma {:induction false} ParsePadDigits(n: nat, width: nat)
    ensures ParseDigits(PadDigits(n, width)) == n
    decreases n + width
  {
    var s := PadDigits(n, width);
    if n >= 10 || width > 1 {
      var w := if width > 0 then width - 1 else 0;
      assert s[..|s| - 1] == PadDigits(n / 10, w);
      ParsePadDigits(n / 10, w);
    } else {
      assert s[..|s| - 1] == [];
    }
  }

  /** A number below 10^width takes exactly `width` characters. */
  lemma {:induction false} PadDigitsWidth(n: nat, width: nat)
    requires width >= 1 && n < Pow10(width)
    ensures |PadDigits(n, width)| == width
  {
    if width > 1 {
      PadDigitsWidth(n / 10, width - 1);
    }
  }

  /** The year field: four digits for years 0..9999, otherwise a sign and six or more digits. */
  function YearText(y: int): string {
    if 0 <= y <= 9999 then PadDigits(y, 4)
    else if y < 0 then "-" + PadDigits(-y, 6)
    else "+" + PadDigits(y, 6)
  }

  lemma YearTextLength(y: int)
    ensures 0 <= y <= 9999 ==> |YearText(y)| == 4
  {
    if 0 <= y <= 9999 {
      PadDigitsWidth(y, 4);
    }
  }

  /** The key of a date: year, then the month counted from 1, then the day, separated by '-'. */
  function DayKey(d: Date): (k: string)
    requires Valid(d)
    ensures 0 <= d.year <= 9999 ==> |k| == 10
  {
    PadDigitsWidth(d.month + 1, 2);
    PadDigitsWidth(d.day, 2);
    YearTextLength(d.year);
    YearText(d.year) + "-" + PadDigits(d.month + 1, 2) + "-" + PadDigits(d.day, 2)
  }

  function ParseYear(t: string): Option<int> {
    if |t| >= 2 && t[0] == '+' && AllDigits(t[1..]) then Some(ParseDigits(t[1..]))
    else if |t| >= 2 && t[0] == '-' && AllDigits(t[1..]) then Some(-(ParseDigits(t[1..]) as int))
    else if |t| >= 1 && AllDigits(t) then Some(ParseDigits(t))
    else None
  }

  /** Reads a key back: the last six characters are `-MM-DD`, the rest is the year. */
  function ParseDayKey(k: string): Option<Date> {
    if |k| < 7 then None
    else
      var yearPart, rest := k[..|k| - 6], k[|k| - 6..];
      match ParseMonthDay(rest)
      case None => None
      case Some((m, d)) =>
        match ParseYear(yearPart)
        case None => None
        case Some(y) => Some(Date(y, m, d))
  }

  /** Reads `-MM-DD` as the month counted from 0 and the day. */
  function ParseMonthDay(t: string): Option<(int, int)> {
    if |t| != 6 || t[0] != '-' || t[3] != '-' || !AllDigits(t[1..3]) || !AllDigits(t[4..]) then None
    else Some((ParseDigits(t[1..3]) - 1, ParseDigits(t[4..])))
  }

  lemma YearTextRoundTrip(y: int)
    ensures |YearText(y)| >= 1
    ensures ParseYear(YearText(y)) == Some(y)
  {
    var t := YearText(y);
    if 0 <= y <= 9999 {
      ParsePadDigits(y, 4);
      assert IsDigit(t[0]);
    } else if y < 0 {
      ParsePadDigits(-y, 6);
      assert t[1..] == PadDigits(-y, 6);
    } else {
      ParsePadDigits(y, 6);
      assert t[1..] == PadDigits(y, 6);
    }
  }

  /** Every key parses back to the date it was formed from. */
  lemma ParseDayKeyRoundTrip(d: Date)
    requires Valid(d)
    ensures ParseDayKey(DayKey(d)) == Some(d)
  {
    PadDigitsWidth(d.month + 1, 2);
    PadDigitsWidth(d.day, 2);
    YearTextRoundTrip(d.year);
    ParsePadDigits(d.month + 1, 2);
    ParsePadDigits(d.day, 2);
    ParseJoinedKey(YearText(d.year), PadDigits(d.month + 1, 2), PadDigits(d.day, 2));
  }

  /** The parser splits a key at the fixed positions of its month and day fields. */
  lemma ParseJoinedKey(yt: string, mm: string, dd: string)
    requires |mm| == 2 && |dd| == 2 && AllDigits(mm) && AllDigits(dd)
    requires ParseYear(yt).Some?
    ensures ParseDayKey(yt + "-" + mm + "-" + dd)
            == Some(Date(ParseYear(yt).value, ParseDigits(mm) - 1, ParseDigits(dd)))
  {
    var t := "-" + mm + "-" + dd;
    var k := yt + "-" + mm + "-" + dd;
    assert |yt| >= 1;
    assert k == yt + t && |k| >= 7;
    assert k[..|k| - 6] == yt;
    assert k[|k| - 6..] == t;
    ParseMonthDayJoined(mm, dd);
    assert ParseMonthDay(k[|k| - 6..]) == Some((ParseDigits(mm) - 1, ParseDigits(dd)));
    assert ParseYear(k[..|k| - 6]) == ParseYear(yt);
  }

  lemma ParseMonthDayJoined(mm: string, dd: string)
    requires |mm| == 2 && |dd| == 2 && AllDigits(mm) && AllDigits(dd)
    ensures ParseMonthDay("-" + mm + "-" + dd) == Some((ParseDigits(mm) - 1, ParseDigits(dd)))
  {
    var t := "-" + mm + "-" + dd;
    assert |t| == 6 && t[0] == '-' && t[3] == '-';
    assert t[1..3] == mm;
    assert t[4..] == dd;
    assert AllDigits(t[1..3]) && AllDigits(t[4..]);
  }

  /** Two valid dates share a key only when they are the same date. */
  lemma DayKeyInjective(a: Date, b: Date)
    requires Valid(a) && Valid(b)
    ensures DayKey(a) == DayKey(b) <==> a == b
  {
    ParseDayKeyRoundTrip(a);
    ParseDayKeyRoundTrip(b);
  }

  /** A well-formed day key: it parses to a valid date and is that date's own key. */
  predicate IsDayKey(k: string) {
    var p := ParseDayKey(k);
    p.Some? && Valid(p.value) && DayKey(p.value) == k
  }

  /** The well-formed keys are exactly the keys of valid dates. */
  lemma IsDayKeyIffKeyOfDate(k: string)
    ensures IsDayKey(k) <==> exists d :: Valid(d) && DayKey(d) == k
  {
    if d :| Valid(d) && DayKey(d) == k {
      ParseDayKeyRoundTrip(d);
    }
  }
}
