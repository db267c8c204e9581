/** The part of Python's `_strptime` that the metadata code relies on.

    `strptime` turns a format into a regular expression (whitespace in the
    format becomes `\s+`, each directive an alternation of digit patterns),
    matches it at the start of the text, insists that the match consumes the
    whole text ("unconverted data remains" otherwise), and finally lets
    `date`/`datetime` validate the fields. Every failure is a ValueError.

    Each directive is followed in the formats used here by a literal that is
    not a digit (or by the end of the pattern), so backtracking into a shorter
    alternative can never produce a match; the deterministic first-alternative
    scanners below therefore accept exactly what the regular expressions do.
 */
module Strptime {
  import opened Wrappers
  import opened Text
  import opened Calendar
  import opened Strftime

  /** A directive's value and the text after it. */
  datatype Scan<+T> = Scan(value: T, rest: string)

  /** A numeric directive whose two-digit alternatives cover the values `lo..hi`
      written with two digits and whose one-digit alternative covers `lo..9`;
      the two-digit alternatives are tried first. */
  function Number(s: string, lo: int, hi: int): (r: Option<Scan<int>>)
    requires 0 <= lo <= 1 && 9 <= hi <= 99
    ensures r.Some? ==> lo <= r.value.value <= hi && |r.value.rest| < |s|
  {
    if |s| >= 2 && IsDigit(s[0]) && IsDigit(s[1])
       && lo <= DigitValue(s[0]) * 10 + DigitValue(s[1]) <= hi
    then Some(Scan(DigitValue(s[0]) * 10 + DigitValue(s[1]), s[2..]))
    else if |s| >= 1 && IsDigit(s[0]) && lo <= DigitValue(s[0])
    then Some(Scan(DigitValue(s[0]), s[1..]))
    else None
  }

  /** `%Y`: exactly four digits. */
  function Year(s: string): (r: Option<Scan<int>>)
    ensures r.Some? ==> 0 <= r.value.value <= 9999
  {
    if |s| >= 4 && AllDigits(s[..4]) then Some(Scan(DecimalValue(s[..4]), s[4..])) else None
  }

  /** `%m`: `1[0-2]|0[1-9]|[1-9]`. */
  function Month(s: string): (r: Option<Scan<int>>)
    ensures r.Some? ==> 1 <= r.value.value <= 12
  {
    Number(s, 1, 12)
  }

  /** `%d`: `3[01]|[12]\d|0[1-9]|[1-9]| [1-9]`. */
  function Day(s: string): (r: Option<Scan<int>>)
    ensures r.Some? ==> 1 <= r.value.value <= 31
  {
    match Number(s, 1, 31)
    case Some(n) => Some(n)
    case None =>
      if |s| >= 2 && s[0] == ' ' && '1' <= s[1] <= '9' then Some(Scan(DigitValue(s[1]), s[2..]))
      else None
  }

  /** `%H`: `2[0-3]|[0-1]\d|\d`. */
  function Hour(s: string): (r: Option<Scan<int>>)
    ensures r.Some? ==> 0 <= r.value.value <= 23
  {
    Number(s, 0, 23)
  }

  /** `%M`: `[0-5]\d|\d`. */
  function Minute(s: string): (r: Option<Scan<int>>)
    ensures r.Some? ==> 0 <= r.value.value <= 59
  {
    Number(s, 0, 59)
  }

  /** `%S`: `6[0-1]|[0-5]\d|\d` (61 is matched; `datetime` rejects it later). */
  function Second(s: string): (r: Option<Scan<int>>)
    ensures r.Some? ==> 0 <= r.value.value <= 61
  {
    Number(s, 0, 61)
  }

  /** `\s+`, greedy. */
  function Spaces(s: string): (r: Option<string>)
    ensures r.Some? ==> |r.value| < |s|
  {
    var k := SpaceRun(s);
    if k >= 1 then Some(s[k..]) else None
  }

  /** A literal character of the format. */
  function Literal(s: string, c: char): (r: Option<string>)
    ensures r.Some? <==> s != [] && s[0] == c
    ensures r.Some? ==> r.value == s[1..]
  {
    if s != [] && s[0] == c then Some(s[1..]) else None
  }

  /** The month whose abbreviation, lower-cased, is `t`. */
  function MonthOfAbbreviation(t: string): (r: Option<int>)
    ensures r.Some? ==> 1 <= r.value <= 12
  {
    if t == "jan" then Some(1) else if t == "feb" then Some(2) else if t == "mar" then Some(3)
    else if t == "apr" then Some(4) else if t == "may" then Some(5) else if t == "jun" then Some(6)
    else if t == "jul" then Some(7) else if t == "aug" then Some(8) else if t == "sep" then Some(9)
    else if t == "oct" then Some(10) else if t == "nov" then Some(11) else if t == "dec" then Some(12)
    else None
  }

  /** Each abbreviation, in whatever letter case, names its own month. */
  lemma {:induction false} MonthOfAbbreviationFinds(m: int)
    requires 1 <= m <= 12
    ensures MonthOfAbbreviation(Lower(MonthAbbreviation(m))) == Some(m)
  {
    if m <= 3 {
      FirstQuarterFinds(m);
    } else if m <= 6 {
      SecondQuarterFinds(m);
    } else if m <= 9 {
      ThirdQuarterFinds(m);
    } else {
      FourthQuarterFinds(m);
    }
  }

  /** January to March. */
  lemma {:induction false} FirstQuarterFinds(m: int)
    requires 1 <= m <= 3
    ensures MonthOfAbbreviation(Lower(MonthAbbreviation(m))) == Some(m)
  {
    var t := Lower(MonthAbbreviation(m));
    if m == 1 { assert t == "jan"; }
    else if m == 2 { assert t == "feb"; }
    else { assert t == "mar"; }
  }

  /** April to June. */
  lemma {:induction false} SecondQuarterFinds(m: int)
    requires 4 <= m <= 6
    ensures MonthOfAbbreviation(Lower(MonthAbbreviation(m))) == Some(m)
  {
    var t := Lower(MonthAbbreviation(m));
    if m == 4 { assert t == "apr"; }
    else if m == 5 { assert t == "may"; }
    else { assert t == "jun"; }
  }

  /** July to September. */
  lemma {:induction false} ThirdQuarterFinds(m: int)
    requires 7 <= m <= 9
    ensures MonthOfAbbreviation(Lower(MonthAbbreviation(m))) == Some(m)
  {
    var t := Lower(MonthAbbreviation(m));
    if m == 7 { assert t == "jul"; }
    else if m == 8 { assert t == "aug"; }
    else { assert t == "sep"; }
  }

  /** October to December. */
  lemma {:induction false} FourthQuarterFinds(m: int)
    requires 10 <= m <= 12
    ensures MonthOfAbbreviation(Lower(MonthAbbreviation(m))) == Some(m)
  {
    var t := Lower(MonthAbbreviation(m));
    if m == 10 { assert t == "oct" && t[0] == 'o'; }
    else if m == 11 { assert t == "nov" && t[0] == 'n'; }
    else { assert t == "dec" && t[0] == 'd'; }
  }

  /** `%b`: a three-letter month abbreviation, in any letter case. */
  function MonthAbbr(s: string): (r: Option<Scan<int>>)
    ensures r.Some? ==> 1 <= r.value.value <= 12
  {
    if |s| >= 3 then
      match MonthOfAbbreviation(Lower(s[..3]))
      case Some(m) => Some(Scan(m, s[3..]))
      case None => None
    else None
  }

  /** `%p`: AM or PM in any letter case; the value says whether it is PM. */
  function AmPm(s: string): (r: Option<Scan<bool>>)
  {
    if |s| >= 2 && Lower(s[..2]) == "am" then Some(Scan(false, s[2..]))
    else if |s| >= 2 && Lower(s[..2]) == "pm" then Some(Scan(true, s[2..]))
    else None
  }

  // ---------------------------------------------------------------------------
  // The three formats

  /** `'%Y:%m:%d'` at the start of `s`. */
  function ColonDate(s: string): Option<Scan<Date>>
  {
    var y :- Year(s);
    var r1 :- Literal(y.rest, ':');
    var mo :- Month(r1);
    var r2 :- Literal(mo.rest, ':');
    var d :- Day(r2);
    Some(Scan(Date(y.value, mo.value, d.value), d.rest))
  }

  /** `'%b %d'` at the start of `s`: month and day. */
  function MonthAndDay(s: string): Option<Scan<(int, int)>>
  {
    var b :- MonthAbbr(s);
    var r1 :- Spaces(b.rest);
    var d :- Day(r1);
    Some(Scan((b.value, d.value), d.rest))
  }

  /** `', %Y'` at the start of `s`: the year. */
  function CommaYear(s: string): Option<Scan<int>>
  {
    var r1 :- Literal(s, ',');
    var r2 :- Spaces(r1);
    Year(r2)
  }

  /** `'%b %d, %Y'` at the start of `s`. */
  function WordDate(s: string): Option<Scan<Date>>
  {
    var md :- MonthAndDay(s);
    var y :- CommaYear(md.rest);
    Some(Scan(Date(y.value, md.value.0, md.value.1), y.rest))
  }

  /** `'%H:%M:%S'` at the start of `s`: hour, minute and second. */
  function Clock(s: string): Option<Scan<(int, int, int)>>
  {
    var h :- Hour(s);
    var r1 :- Literal(h.rest, ':');
    var mi :- Minute(r1);
    var r2 :- Literal(mi.rest, ':');
    var sec :- Second(r2);
    Some(Scan((h.value, mi.value, sec.value), sec.rest))
  }

  /** The fields matched by `'%Y:%m:%d %H:%M:%S'`, before validation. */
  function ColonFields(s: string): Option<DateTime>
  {
    var d :- ColonDate(s);
    var r :- Spaces(d.rest);
    var c :- Clock(r);
    if c.rest == [] then Some(DateTime(d.value, c.value.0, c.value.1, c.value.2)) else None
  }

  /** `' %H:%M:%S %p'` filling the rest of `s`: hour, minute and second. The
      `%p` token is matched but, with `%H` rather than `%I` for the hour, it
      does not change the hour. */
  function MeridiemClock(s: string): Option<(int, int, int)>
  {
    var r1 :- Spaces(s);
    var c :- Clock(r1);
    var r2 :- Spaces(c.rest);
    var p :- AmPm(r2);
    if p.rest == [] then Some(c.value) else None
  }

  /** The fields matched by `'%b %d, %Y %H:%M:%S %p'`, before validation. */
  function MonthNameFields(s: string): Option<DateTime>
  {
    var d :- WordDate(s);
    var c :- MeridiemClock(d.rest);
    Some(DateTime(d.value, c.0, c.1, c.2))
  }

  /** The fields matched by `'%b %d, %Y'`, before validation. */
  function ShortDateFields(s: string): Option<Date>
  {
    var d :- WordDate(s);
    if d.rest == [] then Some(d.value) else None
  }

  /** `datetime.strptime(s, '%Y:%m:%d %H:%M:%S')`. */
  function ParseColon(s: string): (r: Result<DateTime>)
    ensures r.Ok? ==> ValidDateTime(r.value)
    ensures r.Err? ==> r.error == ValueError
  {
    match ColonFields(s)
    case Some(dt) => if ValidDateTime(dt) then Ok(dt) else Err(ValueError)
    case None => Err(ValueError)
  }

  /** `datetime.strptime(s, '%b %d, %Y %H:%M:%S %p')`. */
  function ParseMonthName(s: string): (r: Result<DateTime>)
    ensures r.Ok? ==> ValidDateTime(r.value)
    ensures r.Err? ==> r.error == ValueError
  {
    match MonthNameFields(s)
    case Some(dt) => if ValidDateTime(dt) then Ok(dt) else Err(ValueError)
    case None => Err(ValueError)
  }

  /** `time.strptime(s, '%b %d, %Y')`, keeping year, month and day. */
  function ParseShortDate(s: string): (r: Result<Date>)
    ensures r.Ok? ==> ValidDate(r.value)
    ensures r.Err? ==> r.error == ValueError
  {
    match ShortDateFields(s)
    case Some(d) => if ValidDate(d) then Ok(d) else Err(ValueError)
    case None => Err(ValueError)
  }

  // ---------------------------------------------------------------------------
  // Canonical texts of the three formats and their round trips

  /** Year, month and day values the directives `%Y`, `%m` (or `%b`) and `%d`
      can match, valid as a date or not. */
  predicate DateInDirectiveRanges(d: Date) {
    0 <= d.year <= 9999 && 1 <= d.month <= 12 && 1 <= d.day <= 31
  }

  /** Field values the directives of `'%Y:%m:%d %H:%M:%S'` can match, valid
      as a date and time or not (February 30th, year 0, second 61). */
  predicate InDirectiveRanges(dt: DateTime) {
    && DateInDirectiveRanges(dt.date)
    && 0 <= dt.hour <= 23 && 0 <= dt.minute <= 59 && 0 <= dt.second <= 61
  }

  /** `strftime('%Y:%m:%d %H:%M:%S')`: the EXIF `DateTime` layout. */
  function ColonStamp(dt: DateTime): string
    requires InDirectiveRanges(dt)
  {
    PadDecimal(dt.date.year, 4) + (":" + (PadDecimal(dt.date.month, 2) + (":" + (PadDecimal(dt.date.day, 2)
      + (" " + (PadDecimal(dt.hour, 2) + (":" + (PadDecimal(dt.minute, 2) + (":" + PadDecimal(dt.second, 2))))))))))
  }

  /** The layout `'Dec 8, 2018 8:14:03 AM'`: abbreviated month, unpadded day,
      four-digit year, unpadded hour and a trailing meridiem token. */
  function MonthNameStamp(dt: DateTime, meridiem: string): string
    requires InDirectiveRanges(dt)
    requires meridiem == "AM" || meridiem == "PM"
  {
    MonthAbbreviation(dt.date.month) + (" " + (DecimalText(dt.date.day) + ("," + (" " + (PadDecimal(dt.date.year, 4)
      + (" " + (DecimalText(dt.hour) + (":" + (PadDecimal(dt.minute, 2) + (":" + (PadDecimal(dt.second, 2)
      + (" " + meridiem))))))))))))
  }

  /** The layout `'Dec 8, 2018'`. */
  function ShortDateStamp(d: Date): string
    requires DateInDirectiveRanges(d)
  {
    MonthAbbreviation(d.month) + (" " + (DecimalText(d.day) + ("," + (" " + PadDecimal(d.year, 4)))))
  }

  /** The colon layout holds digits, colons and one space: no letter, and a
      colon after the year. */
  lemma {:induction false} ColonStampNoLetter(dt: DateTime)
    requires InDirectiveRanges(dt)
    ensures !AnyLetter(ColonStamp(dt)) && ColonStamp(dt)[4] == ':'
  {
    var y := PadDecimal(dt.date.year, 4);
    var mo := PadDecimal(dt.date.month, 2);
    var d := PadDecimal(dt.date.day, 2);
    var h := PadDecimal(dt.hour, 2);
    var mi := PadDecimal(dt.minute, 2);
    var se := PadDecimal(dt.second, 2);
    NoLetterInConcat(":", se);
    NoLetterInConcat(mi, ":" + se);
    NoLetterInConcat(":", mi + (":" + se));
    NoLetterInConcat(h, ":" + (mi + (":" + se)));
    NoLetterInConcat(" ", h + (":" + (mi + (":" + se))));
    NoLetterInConcat(d, " " + (h + (":" + (mi + (":" + se)))));
    NoLetterInConcat(":", d + (" " + (h + (":" + (mi + (":" + se))))));
    NoLetterInConcat(mo, ":" + (d + (" " + (h + (":" + (mi + (":" + se)))))));
    NoLetterInConcat(":", mo + (":" + (d + (" " + (h + (":" + (mi + (":" + se))))))));
    NoLetterInConcat(y, ":" + (mo + (":" + (d + (" " + (h + (":" + (mi + (":" + se)))))))));
  }

  lemma {:induction false} NumberOfPadded(v: int, lo: int, hi: int, rest: string)
    requires 0 <= lo <= 1 && 9 <= hi <= 99 && lo <= v <= hi
    ensures Number(PadDecimal(v, 2) + rest, lo, hi) == Some(Scan(v, rest))
  {
    var p := PadDecimal(v, 2);
    assert p[..1] == PadDecimal(v / 10, 1);
    assert (p + rest)[2..] == rest;
  }

  lemma {:induction false} NumberOfDecimal(v: int, lo: int, hi: int, rest: string)
    requires 0 <= lo <= 1 && 9 <= hi <= 99 && lo <= v <= hi
    requires rest == [] || !IsDigit(rest[0])
    ensures Number(DecimalText(v) + rest, lo, hi) == Some(Scan(v, rest))
  {
    var p := DecimalText(v);
    if v >= 10 {
      assert p == [DigitChar(v / 10), DigitChar(v % 10)] by {
        assert p[..1] == DecimalText(v / 10);
      }
      assert (p + rest)[2..] == rest;
    } else {
      assert p == [DigitChar(v)];
      assert (p + rest)[1..] == rest;
    }
  }

  lemma {:induction false} YearOfPadded(y: int, rest: string)
    requires 0 <= y <= 9999
    ensures Year(PadDecimal(y, 4) + rest) == Some(Scan(y, rest))
  {
    var p := PadDecimal(y, 4);
    assert (p + rest)[..4] == p;
    assert (p + rest)[4..] == rest;
  }

  lemma {:induction false} SpacesOfOne(rest: string)
    requires rest == [] || !IsSpace(rest[0])
    ensures Spaces(" " + rest) == Some(rest)
  {
    assert (" " + rest)[1..] == rest;
  }

  lemma {:induction false} MonthAbbrOf(m: int, rest: string)
    requires 1 <= m <= 12
    ensures MonthAbbr(MonthAbbreviation(m) + rest) == Some(Scan(m, rest))
  {
    var a := MonthAbbreviation(m);
    assert (a + rest)[..3] == a;
    assert (a + rest)[3..] == rest;
    MonthOfAbbreviationFinds(m);
  }

  lemma {:induction false} AmPmOf(p: string, rest: string)
    requires p == "AM" || p == "PM"
    ensures AmPm(p + rest) == Some(Scan(p == "PM", rest))
  {
    assert Lower(p) == if p == "PM" then "pm" else "am";
    assert (p + rest)[..2] == p;
    assert (p + rest)[2..] == rest;
  }

  lemma {:induction false} ColonDateOf(d: Date, rest: string)
    requires DateInDirectiveRanges(d)
    ensures ColonDate(PadDecimal(d.year, 4) + (":" + (PadDecimal(d.month, 2) + (":" + (PadDecimal(d.day, 2) + rest)))))
            == Some(Scan(d, rest))
  {
    var t2 := ":" + (PadDecimal(d.day, 2) + rest);
    var t1 := ":" + (PadDecimal(d.month, 2) + t2);
    YearOfPadded(d.year, t1);
    NumberOfPadded(d.month, 1, 12, t2);
    NumberOfPadded(d.day, 1, 31, rest);
  }

  lemma {:induction false} WordDateOf(d: Date, rest: string)
    requires DateInDirectiveRanges(d)
    requires rest == [] || !IsDigit(rest[0])
    ensures WordDate(MonthAbbreviation(d.month) + (" " + (DecimalText(d.day) + ("," + (" " + (PadDecimal(d.year, 4) + rest))))))
            == Some(Scan(d, rest))
  {
    var t4 := "," + (" " + (PadDecimal(d.year, 4) + rest));
    assert MonthAndDay(MonthAbbreviation(d.month) + (" " + (DecimalText(d.day) + t4))) == Some(Scan((d.month, d.day), t4)) by {
      MonthAndDayOf(d.month, d.day, t4);
    }
    assert CommaYear(t4) == Some(Scan(d.year, rest)) by {
      SpacesOfOne(PadDecimal(d.year, 4) + rest);
      YearOfPadded(d.year, rest);
    }
  }

  lemma {:induction false} MonthAndDayOf(m: int, day: int, rest: string)
    requires 1 <= m <= 12 && 1 <= day <= 31
    requires rest == [] || !IsDigit(rest[0])
    ensures MonthAndDay(MonthAbbreviation(m) + (" " + (DecimalText(day) + rest))) == Some(Scan((m, day), rest))
  {
    var t3 := DecimalText(day) + rest;
    assert MonthAbbr(MonthAbbreviation(m) + (" " + t3)) == Some(Scan(m, " " + t3)) by {
      MonthAbbrOf(m, " " + t3);
    }
    assert Spaces(" " + t3) == Some(t3) by {
      SpacesOfOne(t3);
    }
    assert Day(t3) == Some(Scan(day, rest)) by {
      NumberOfDecimal(day, 1, 31, rest);
    }
  }

  lemma {:induction false} ClockOfPadded(h: int, mi: int, sec: int, rest: string)
    requires 0 <= h < 24 && 0 <= mi < 60 && 0 <= sec <= 61
    ensures Clock(PadDecimal(h, 2) + (":" + (PadDecimal(mi, 2) + (":" + (PadDecimal(sec, 2) + rest)))))
            == Some(Scan((h, mi, sec), rest))
  {
    var t2 := ":" + (PadDecimal(sec, 2) + rest);
    var t1 := ":" + (PadDecimal(mi, 2) + t2);
    NumberOfPadded(h, 0, 23, t1);
    NumberOfPadded(mi, 0, 59, t2);
    NumberOfPadded(sec, 0, 61, rest);
  }

  lemma {:induction false} ClockOfDecimal(h: int, mi: int, sec: int, rest: string)
    requires 0 <= h < 24 && 0 <= mi < 60 && 0 <= sec <= 61
    requires rest == [] || !IsDigit(rest[0])
    ensures Clock(DecimalText(h) + (":" + (PadDecimal(mi, 2) + (":" + (PadDecimal(sec, 2) + rest)))))
            == Some(Scan((h, mi, sec), rest))
  {
    var t2 := ":" + (PadDecimal(sec, 2) + rest);
    var t1 := ":" + (PadDecimal(mi, 2) + t2);
    NumberOfDecimal(h, 0, 23, t1);
    NumberOfPadded(mi, 0, 59, t2);
    NumberOfPadded(sec, 0, 61, rest);
  }

  /** Fields written in the colon layout parse back to themselves when they
      form a valid date and time, and are a ValueError otherwise. */
  lemma {:induction false} ColonRoundTrip(dt: DateTime)
    requires InDirectiveRanges(dt)
    ensures ParseColon(ColonStamp(dt)) == if ValidDateTime(dt) then Ok(dt) else Err(ValueError)
  {
    var c := PadDecimal(dt.hour, 2) + (":" + (PadDecimal(dt.minute, 2) + (":" + PadDecimal(dt.second, 2))));
    ColonDateOf(dt.date, " " + c);
    SpacesOfOne(c);
    assert PadDecimal(dt.second, 2) + [] == PadDecimal(dt.second, 2);
    ClockOfPadded(dt.hour, dt.minute, dt.second, []);
  }

  /** A colon-layout text that stops after the minutes is a ValueError. */
  lemma {:induction false} ColonWithoutSecondsFails(dt: DateTime)
    requires InDirectiveRanges(dt)
    ensures ParseColon(ColonStamp(dt)[..16]) == Err(ValueError)
  {
    var c := PadDecimal(dt.hour, 2) + (":" + PadDecimal(dt.minute, 2));
    var s := PadDecimal(dt.date.year, 4) + (":" + (PadDecimal(dt.date.month, 2) + (":" + (PadDecimal(dt.date.day, 2) + (" " + c)))));
    assert ColonStamp(dt)[..16] == s;
    assert ColonDate(s) == Some(Scan(dt.date, " " + c)) by {
      ColonDateOf(dt.date, " " + c);
    }
    assert Spaces(" " + c) == Some(c) by {
      SpacesOfOne(c);
    }
    assert Clock(c) == None by {
      ClockWithoutSeconds(dt.hour, dt.minute);
    }
    assert ColonFields(s) == None;
  }

  /** `%H:%M` with nothing after it leaves `:%S` unmatched. */
  lemma {:induction false} ClockWithoutSeconds(h: int, m: int)
    requires 0 <= h <= 23 && 0 <= m <= 59
    ensures Clock(PadDecimal(h, 2) + (":" + PadDecimal(m, 2))) == None
  {
    assert Hour(PadDecimal(h, 2) + (":" + PadDecimal(m, 2))) == Some(Scan(h, ":" + PadDecimal(m, 2))) by {
      NumberOfPadded(h, 0, 23, ":" + PadDecimal(m, 2));
    }
    assert Minute(PadDecimal(m, 2)) == Some(Scan(m, [])) by {
      NumberOfPadded(m, 0, 59, []);
      assert PadDecimal(m, 2) + [] == PadDecimal(m, 2);
    }
  }

  /** A month field from 13 to 19 is read as its first digit, after which the
      `:` the layout needs is missing: a ValueError. */
  lemma {:induction false} ColonMonthPastTwelveFails(year: int, month: int, rest: string)
    requires 0 <= year <= 9999 && 13 <= month <= 19
    ensures ParseColon(PadDecimal(year, 4) + (":" + (PadDecimal(month, 2) + rest))) == Err(ValueError)
  {
    var t := PadDecimal(month, 2) + rest;
    YearOfPadded(year, ":" + t);
    var p := PadDecimal(month, 2);
    assert p[..1] == PadDecimal(month / 10, 1);
    assert t[0] == '1' && t[1] == DigitChar(month % 10) && t[1..][0] == t[1];
    assert Month(t) == Some(Scan(1, t[1..]));
    assert ColonDate(PadDecimal(year, 4) + (":" + t)) == None;
  }

  /** Fields written in the month-name layout parse back to themselves when
      they form a valid date and time, and are a ValueError otherwise; the hour
      is read as written, whatever the meridiem says. */
  lemma {:induction false} MonthNameRoundTrip(dt: DateTime, meridiem: string)
    requires InDirectiveRanges(dt)
    requires meridiem == "AM" || meridiem == "PM"
    ensures ParseMonthName(MonthNameStamp(dt, meridiem)) == if ValidDateTime(dt) then Ok(dt) else Err(ValueError)
  {
    var c := DecimalText(dt.hour) + (":" + (PadDecimal(dt.minute, 2) + (":" + (PadDecimal(dt.second, 2) + (" " + meridiem)))));
    assert WordDate(MonthNameStamp(dt, meridiem)) == Some(Scan(dt.date, " " + c)) by {
      WordDateOf(dt.date, " " + c);
    }
    MeridiemClockOf(dt.hour, dt.minute, dt.second, meridiem);
  }

  lemma {:induction false} MeridiemClockOf(h: int, mi: int, sec: int, meridiem: string)
    requires 0 <= h < 24 && 0 <= mi < 60 && 0 <= sec <= 61
    requires meridiem == "AM" || meridiem == "PM"
    ensures MeridiemClock(" " + (DecimalText(h) + (":" + (PadDecimal(mi, 2) + (":" + (PadDecimal(sec, 2) + (" " + meridiem)))))))
      == Some((h, mi, sec))
  {
    var p := meridiem;
    var m := " " + p;
    var c := DecimalText(h) + (":" + (PadDecimal(mi, 2) + (":" + (PadDecimal(sec, 2) + m))));
    assert Spaces(" " + c) == Some(c) by {
      SpacesOfOne(c);
    }
    assert Clock(c) == Some(Scan((h, mi, sec), m)) by {
      ClockOfDecimal(h, mi, sec, m);
    }
    assert Spaces(m) == Some(p) by {
      SpacesOfOne(p);
    }
    assert AmPm(p) == Some(Scan(p == "PM", [])) by {
      AmPmOf(p, []);
      assert p + [] == p;
    }
  }

  /** A date written as `'Dec 8, 2018'` parses back to itself when it is
      valid, and is a ValueError otherwise. */
  lemma {:induction false} ShortDateRoundTrip(d: Date)
    requires DateInDirectiveRanges(d)
    ensures ParseShortDate(ShortDateStamp(d)) == if ValidDate(d) then Ok(d) else Err(ValueError)
  {
    WordDateOf(d, []);
    assert PadDecimal(d.year, 4) + [] == PadDecimal(d.year, 4);
  }
}
