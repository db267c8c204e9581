/** The `strftime` directives the metadata code renders with, in the English
    (C) locale: `%B %d, %Y` for a date and `%I:%M %p` for a clock time.
 */
module Strftime {
  import opened Text
  import opened Calendar

  /** `%B`: the full month name. */
  function MonthName(m: int): (r: string)
    requires 1 <= m <= 12
    ensures |r| >= 3
  {
    if m == 1 then "January" else if m == 2 then "February" else if m == 3 then "March"
    else if m == 4 then "April" else if m == 5 then "May" else if m == 6 then "June"
    else if m == 7 then "July" else if m == 8 then "August" else if m == 9 then "September"
    else if m == 10 then "October" else if m == 11 then "November" else "December"
  }

  /** `%b`: the abbreviated month name, the first three letters of the full one. */
  function MonthAbbreviation(m: int): (r: string)
    requires 1 <= m <= 12
    ensures r == MonthName(m)[..3]
  {
    if m == 1 then "Jan" else if m == 2 then "Feb" else if m == 3 then "Mar"
    else if m == 4 then "Apr" else if m == 5 then "May" else if m == 6 then "Jun"
    else if m == 7 then "Jul" else if m == 8 then "Aug" else if m == 9 then "Sep"
    else if m == 10 then "Oct" else if m == 11 then "Nov" else "Dec"
  }

  lemma {:induction false} MonthNameInjective(a: int, b: int)
    requires 1 <= a <= 12 && 1 <= b <= 12 && MonthName(a) == MonthName(b)
    ensures a == b
  {
    assert MonthAbbreviation(a) == MonthAbbreviation(b);
  }

  /** Every month abbreviation is three letters. */
  lemma {:induction false} AbbreviationLetters(m: int)
    requires 1 <= m <= 12
    ensures |MonthAbbreviation(m)| == 3
    ensures forall i :: 0 <= i < 3 ==> IsLetter(MonthAbbreviation(m)[i])
  {
    var a := MonthAbbreviation(m);
    if m == 1 { assert a == "Jan"; } else if m == 2 { assert a == "Feb"; } else if m == 3 { assert a == "Mar"; }
    else if m == 4 { assert a == "Apr"; } else if m == 5 { assert a == "May"; } else if m == 6 { assert a == "Jun"; }
    else if m == 7 { assert a == "Jul"; } else if m == 8 { assert a == "Aug"; } else if m == 9 { assert a == "Sep"; }
    else if m == 10 { assert a == "Oct"; } else if m == 11 { assert a == "Nov"; } else { assert a == "Dec"; }
  }

  /** What `%d` and `%Y` can render: a day below 100 and a year below 10000. */
  predicate Renderable(d: Date) {
    1 <= d.month <= 12 && 0 <= d.day < 100 && 0 <= d.year < 10000
  }

  /** `strftime('%B %d, %Y')`: long month name, two-digit day, four-digit year. */
  function LongDate(d: Date): (r: string)
    requires Renderable(d)
  {
    MonthName(d.month) + (" " + PadDecimal(d.day, 2) + ", " + PadDecimal(d.year, 4))
  }

  /** The rendered date determines the date: month name, day and year are all recoverable. */
  lemma {:induction false} LongDateInjective(a: Date, b: Date)
    requires Renderable(a) && Renderable(b) && LongDate(a) == LongDate(b)
    ensures a == b
  {
    var ta := " " + PadDecimal(a.day, 2) + ", " + PadDecimal(a.year, 4);
    var tb := " " + PadDecimal(b.day, 2) + ", " + PadDecimal(b.year, 4);
    var s := LongDate(a);
    assert |ta| == 9 && |tb| == 9;
    assert |MonthName(a.month)| == |MonthName(b.month)|;
    assert MonthName(a.month) == s[..|s| - 9] == MonthName(b.month);
    MonthNameInjective(a.month, b.month);
    assert ta == s[|s| - 9..] == tb;
    DayYearInjective(a.day, a.year, b.day, b.year);
  }

  /** The text after the month name determines the day and the year. */
  lemma {:induction false} DayYearInjective(d1: nat, y1: nat, d2: nat, y2: nat)
    requires d1 < 100 && d2 < 100 && y1 < 10000 && y2 < 10000
    requires " " + PadDecimal(d1, 2) + ", " + PadDecimal(y1, 4) == " " + PadDecimal(d2, 2) + ", " + PadDecimal(y2, 4)
    ensures d1 == d2 && y1 == y2
  {
    var ta := " " + PadDecimal(d1, 2) + ", " + PadDecimal(y1, 4);
    var tb := " " + PadDecimal(d2, 2) + ", " + PadDecimal(y2, 4);
    assert PadDecimal(d1, 2) == ta[1..3] == tb[1..3] == PadDecimal(d2, 2);
    assert PadDecimal(y1, 4) == ta[5..] == tb[5..] == PadDecimal(y2, 4);
  }

  /** `%I`: the hour on a 12-hour clock, 1 to 12. */
  function Hour12(h: int): (r: int)
    requires 0 <= h < 24
    ensures 1 <= r <= 12 && r % 12 == h % 12
  {
    if h % 12 == 0 then 12 else h % 12
  }

  /** `%p`: AM before noon, PM from noon on. */
  function Meridiem(h: int): (r: string)
    requires 0 <= h < 24
    ensures r == "PM" <==> h >= 12
    ensures r == "AM" || r == "PM"
  {
    if h < 12 then "AM" else "PM"
  }

  /** How `%I` and `%p` read back into a 24-hour clock hour (the rule `_strptime` applies). */
  function Hour24(h12: int, pm: bool): (r: int)
    requires 1 <= h12 <= 12
    ensures 0 <= r < 24 && r % 12 == h12 % 12 && (pm <==> r >= 12)
  {
    if pm then (if h12 == 12 then 12 else h12 + 12)
    else (if h12 == 12 then 0 else h12)
  }

  /** The 12-hour rendering loses nothing: hour and meridiem give back the hour. */
  lemma {:induction false} TwelveHourRoundTrip(h: int)
    requires 0 <= h < 24
    ensures Hour24(Hour12(h), Meridiem(h) == "PM") == h
  {
  }

  /** `strftime('%I:%M %p')`: two-digit 12-hour clock hour, two-digit minute, AM or PM. */
  function ClockTime(h: int, mi: int): (r: string)
    requires 0 <= h < 24 && 0 <= mi < 60
  {
    PadDecimal(Hour12(h), 2) + ":" + PadDecimal(mi, 2) + " " + Meridiem(h)
  }

  /** The rendered clock time determines the hour and the minute. */
  lemma {:induction false} ClockTimeInjective(h1: int, m1: int, h2: int, m2: int)
    requires 0 <= h1 < 24 && 0 <= m1 < 60 && 0 <= h2 < 24 && 0 <= m2 < 60
    requires ClockTime(h1, m1) == ClockTime(h2, m2)
    ensures h1 == h2 && m1 == m2
  {
    var s := ClockTime(h1, m1);
    assert PadDecimal(Hour12(h1), 2) == s[..2] == PadDecimal(Hour12(h2), 2);
    assert PadDecimal(m1, 2) == s[3..5] == PadDecimal(m2, 2);
    assert Meridiem(h1) == s[6..] == Meridiem(h2);
    TwelveHourRoundTrip(h1);
    TwelveHourRoundTrip(h2);
  }
}
