/** The proleptic Gregorian calendar of Python's `datetime` module: valid
    dates, day ordinals (`date.toordinal`, `date.fromordinal`) and the
    conversion of a POSIX timestamp to local civil time (`fromtimestamp`).

    The host's time zone is an explicit parameter: a fixed offset in seconds
    east of UTC.
 */
module Calendar {
  import opened Wrappers

  const MinYear := 1
  const MaxYear := 9999

  predicate IsLeapYear(y: int) { y % 4 == 0 && (y % 100 != 0 || y % 400 == 0) }

  function DaysInYear(y: int): nat { if IsLeapYear(y) then 366 else 365 }

  function DaysInMonth(y: int, m: int): (r: nat)
    requires 1 <= m <= 12
    ensures 28 <= r <= 31
  {
    if m == 2 then (if IsLeapYear(y) then 29 else 28)
    else if m == 4 || m == 6 || m == 9 || m == 11 then 30
    else 31
  }

  datatype Date = Date(year: int, month: int, day: int)

  datatype DateTime = DateTime(date: Date, hour: int, minute: int, second: int)

  /** What `date(year, month, day)` accepts without a ValueError. */
  predicate ValidDate(d: Date) {
    && MinYear <= d.year <= MaxYear
    && 1 <= d.month <= 12
    && 1 <= d.day <= DaysInMonth(d.year, d.month)
  }

  /** What `datetime(...)` accepts without a ValueError. */
  predicate ValidDateTime(dt: DateTime) {
    && ValidDate(dt.date)
    && 0 <= dt.hour < 24
    && 0 <= dt.minute < 60
    && 0 <= dt.second < 60
  }

  // ---------------------------------------------------------------------------
  // Day ordinals: 0001-01-01 is day 1

  /** Days in the years before `y` (Python's `_days_before_year`). */
  function DaysBeforeYear(y: int): nat
    requires y >= 1
  {
    var p := y - 1;
    p * 365 + p / 4 - p / 100 + p / 400
  }

  /** Days in the months of year `y` before month `m`; month 13 stands for the whole year. */
  function DaysBeforeMonth(y: int, m: int): nat
    requires 1 <= m <= 13
  {
    var common :=
      if m == 1 then 0 else if m == 2 then 31 else if m == 3 then 59
      else if m == 4 then 90 else if m == 5 then 120 else if m == 6 then 151
      else if m == 7 then 181 else if m == 8 then 212 else if m == 9 then 243
      else if m == 10 then 273 else if m == 11 then 304 else if m == 12 then 334
      else 365;
    common + (if m > 2 && IsLeapYear(y) then 1 else 0)
  }

  /** `date.toordinal()`; a valid date's ordinal lies within its own year. */
  function Ordinal(d: Date): (r: int)
    requires ValidDate(d)
    ensures DaysBeforeYear(d.year) < r <= DaysBeforeYear(d.year) + DaysInYear(d.year)
    ensures 1 <= r <= MaxOrdinal
  {
    DaysBeforeMonthStep(d.year, d.month);
    if d.month < 12 then
      DaysBeforeMonthGrows(d.year, d.month + 1, 13);
      DaysBeforeYear(d.year) + DaysBeforeMonth(d.year, d.month) + d.day
    else
      DaysBeforeYear(d.year) + DaysBeforeMonth(d.year, d.month) + d.day
  }

  /** The ordinal of 9999-12-31, the last day `date` can hold. */
  const MaxOrdinal := 3652059

  /** Days in a 400-year Gregorian cycle. */
  const CycleDays := 146097

  /** Moving one past `p` raises `p / k` exactly when `p + 1` is a multiple of `k`. */
  lemma {:induction false} FloorStep4(p: int)
    ensures (p + 1) / 4 == p / 4 + (if (p + 1) % 4 == 0 then 1 else 0)
  {
  }

  lemma {:induction false} FloorStep100(p: int)
    ensures (p + 1) / 100 == p / 100 + (if (p + 1) % 100 == 0 then 1 else 0)
  {
  }

  lemma {:induction false} FloorStep400(p: int)
    ensures (p + 1) / 400 == p / 400 + (if (p + 1) % 400 == 0 then 1 else 0)
  {
  }

  lemma {:induction false} DaysBeforeYearStep(y: int)
    requires y >= 1
    ensures DaysBeforeYear(y + 1) == DaysBeforeYear(y) + DaysInYear(y)
  {
    var p := y - 1;
    var d4 := if y % 4 == 0 then 1 else 0;
    var d100 := if y % 100 == 0 then 1 else 0;
    var d400 := if y % 400 == 0 then 1 else 0;
    var q4, q100, q400 := y / 4, y / 100, y / 400;
    assert q4 == p / 4 + d4 by {
      FloorStep4(p);
      assert p + 1 == y;
    }
    assert q100 == p / 100 + d100 by {
      FloorStep100(p);
      assert p + 1 == y;
    }
    assert q400 == p / 400 + d400 by {
      FloorStep400(p);
      assert p + 1 == y;
    }
    assert DaysBeforeYear(y + 1) == y * 365 + q4 - q100 + q400;
    assert d4 - d100 + d400 == DaysInYear(y) - 365 by {
      LeapCorrection(y);
    }
  }

  /** The leap day counted by the three divisibility corrections. */
  lemma {:induction false} LeapCorrection(y: int)
    ensures (if y % 4 == 0 then 1 else 0) - (if y % 100 == 0 then 1 else 0) + (if y % 400 == 0 then 1 else 0)
      == DaysInYear(y) - 365
  {
    if y % 400 == 0 {
      Multiple400(y);
      Multiple100(y);
    } else if y % 100 == 0 {
      Multiple100(y);
    }
  }

  lemma {:induction false} Multiple400(y: int)
    requires y % 400 == 0
    ensures y % 100 == 0
  {
    var q := y / 400;
    assert y == 100 * (4 * q);
  }

  lemma {:induction false} Multiple100(y: int)
    requires y % 100 == 0
    ensures y % 4 == 0
  {
    var q := y / 100;
    assert y == 4 * (25 * q);
  }

  lemma {:induction false} DaysBeforeYearGrows(y1: int, y2: int)
    requires 1 <= y1 < y2
    ensures DaysBeforeYear(y1) + DaysInYear(y1) <= DaysBeforeYear(y2)
    decreases y2 - y1
  {
    DaysBeforeYearStep(y1);
    if y1 + 1 < y2 {
      DaysBeforeYearGrows(y1 + 1, y2);
    }
  }

  lemma {:induction false} DaysBeforeMonthStep(y: int, m: int)
    requires 1 <= m <= 12
    ensures DaysBeforeMonth(y, m + 1) == DaysBeforeMonth(y, m) + DaysInMonth(y, m)
  {
  }

  lemma {:induction false} DaysBeforeMonthGrows(y: int, m1: int, m2: int)
    requires 1 <= m1 < m2 <= 13
    ensures DaysBeforeMonth(y, m1) + DaysInMonth(y, m1) <= DaysBeforeMonth(y, m2)
  {
  }

  /** Two valid dates with the same ordinal are the same date. */
  lemma {:induction false} OrdinalInjective(a: Date, b: Date)
    requires ValidDate(a) && ValidDate(b) && Ordinal(a) == Ordinal(b)
    ensures a == b
  {
    if a.year < b.year {
      DaysBeforeYearGrows(a.year, b.year);
    } else if b.year < a.year {
      DaysBeforeYearGrows(b.year, a.year);
    }
    DaysBeforeMonthStep(a.year, a.month);
    DaysBeforeMonthStep(b.year, b.month);
    if a.month < b.month {
      DaysBeforeMonthGrows(a.year, a.month, b.month);
    } else if b.month < a.month {
      DaysBeforeMonthGrows(b.year, b.month, a.month);
    }
  }

  /** The year holding day `k` (zero-based) counted from January 1 of year `y`,
      and the zero-based day within that year. */
  function LocateYear(k: nat, y: int): (r: (int, nat))
    requires y >= 1
    ensures r.0 >= y && r.1 < DaysInYear(r.0)
    ensures DaysBeforeYear(r.0) + r.1 == DaysBeforeYear(y) + k
    decreases k
  {
    if k < DaysInYear(y) then (y, k)
    else
      DaysBeforeYearStep(y);
      LocateYear(k - DaysInYear(y), y + 1)
  }

  /** The month holding zero-based day `k` of year `y`, searching from month `m`. */
  function LocateMonth(y: int, k: nat, m: int): (r: int)
    requires 1 <= m <= 12 && DaysBeforeMonth(y, m) <= k < DaysInYear(y)
    ensures m <= r <= 12
    ensures DaysBeforeMonth(y, r) <= k < DaysBeforeMonth(y, r + 1)
    decreases 12 - m
  {
    if k < DaysBeforeMonth(y, m + 1) then m else LocateMonth(y, k, m + 1)
  }

  /** `date.fromordinal(n)`: whole 400-year cycles first, then year by year
      and month by month. */
  function FromOrdinal(n: int): (d: Date)
    requires 1 <= n <= MaxOrdinal
    ensures ValidDate(d) && Ordinal(d) == n
  {
    var cycles := (n - 1) / CycleDays;
    var y0 := 400 * cycles + 1;
    assert DaysBeforeYear(y0) == CycleDays * cycles;
    var yk := LocateYear(n - 1 - CycleDays * cycles, y0);
    var y := yk.0;
    var k := yk.1;
    assert y <= MaxYear by {
      if y > MaxYear {
        DaysBeforeYearGrows(MaxYear + 1, y);
      }
    }
    var m := LocateMonth(y, k, 1);
    DaysBeforeMonthStep(y, m);
    Date(y, m, k - DaysBeforeMonth(y, m) + 1)
  }

  lemma {:induction false} OrdinalRoundTrip(d: Date)
    requires ValidDate(d)
    ensures FromOrdinal(Ordinal(d)) == d
  {
    OrdinalInjective(FromOrdinal(Ordinal(d)), d);
  }

  // ---------------------------------------------------------------------------
  // POSIX timestamps

  /** The ordinal of 1970-01-01. */
  const EpochOrdinal := 719163

  /** Ordinal 719163 is 1 January 1970. */
  lemma {:induction false} EpochDay()
    ensures Ordinal(Date(1970, 1, 1)) == EpochOrdinal
    ensures FromOrdinal(EpochOrdinal) == Date(1970, 1, 1)
  {
    assert DaysBeforeYear(1970) == 719162;
    OrdinalRoundTrip(Date(1970, 1, 1));
  }


  /** The POSIX timestamp of local time `dt` in a zone `utcOffset` seconds east of UTC. */
  function Timestamp(dt: DateTime, utcOffset: int): int
    requires ValidDate(dt.date)
  {
    (Ordinal(dt.date) - EpochOrdinal) * 86400
      + dt.hour * 3600 + dt.minute * 60 + dt.second - utcOffset
  }

  /** The time `sod` seconds after midnight on the day with ordinal `n`. */
  function AtSecondOfDay(n: int, sod: int): (dt: DateTime)
    requires 1 <= n <= MaxOrdinal && 0 <= sod < 86400
    ensures ValidDateTime(dt) && Ordinal(dt.date) == n
    ensures dt.hour * 3600 + dt.minute * 60 + dt.second == sod
  {
    ClockOfSecond(sod);
    DateTime(FromOrdinal(n), sod / 3600, sod % 3600 / 60, sod % 60)
  }

  /** A second of the day splits into an hour, a minute and a second in range. */
  lemma {:induction false} ClockOfSecond(sod: int)
    requires 0 <= sod < 86400
    ensures 0 <= sod / 3600 < 24 && 0 <= sod % 3600 / 60 < 60 && 0 <= sod % 60 < 60
    ensures sod / 3600 * 3600 + sod % 3600 / 60 * 60 + sod % 60 == sod
  {
    var h, r := sod / 3600, sod % 3600;
    assert sod == h * 3600 + r && 0 <= r < 3600;
    assert r == r / 60 * 60 + r % 60;
    assert r % 60 == sod % 60 by {
      assert sod == (h * 60 + r / 60) * 60 + r % 60;
    }
  }

  /** `datetime.fromtimestamp(t)` for whole seconds `t`: the local civil time, or
      ValueError when it falls outside years 1 to 9999. */
  function LocalDateTime(t: int, utcOffset: int): (r: Result<DateTime>)
    ensures r.Ok? ==> ValidDateTime(r.value) && Timestamp(r.value, utcOffset) == t
    ensures r.Err? ==> r.error == ValueError
  {
    var local := t + utcOffset;
    var n := local / 86400 + EpochOrdinal;
    if 1 <= n <= MaxOrdinal then
      assert local == (n - EpochOrdinal) * 86400 + local % 86400;
      Ok(AtSecondOfDay(n, local % 86400))
    else
      Err(ValueError)
  }

  /** Splitting a count of seconds into days and seconds of the day is unique. */
  lemma {:induction false} DaySplit(x: int, q: int, r: int)
    requires 0 <= r < 86400 && x == q * 86400 + r
    ensures x / 86400 == q && x % 86400 == r
  {
  }

  /** Splitting a second of the day into hour, minute and second is unique. */
  lemma {:induction false} ClockSplit(sod: int, h: int, m: int, s: int)
    requires 0 <= h < 24 && 0 <= m < 60 && 0 <= s < 60 && sod == h * 3600 + m * 60 + s
    ensures sod / 3600 == h && sod % 3600 / 60 == m && sod % 60 == s
  {
    assert sod % 3600 == m * 60 + s;
  }

  /** `LocalDateTime` at a timestamp given as a day ordinal and a second of that day. */
  lemma {:induction false} LocalDateTimeAt(t: int, utcOffset: int, n: int, sod: int)
    requires 1 <= n <= MaxOrdinal && 0 <= sod < 86400
    requires t + utcOffset == (n - EpochOrdinal) * 86400 + sod
    ensures LocalDateTime(t, utcOffset) == Ok(AtSecondOfDay(n, sod))
  {
    var local := t + utcOffset;
    DaySplit(local, n - EpochOrdinal, sod);
    LocalDateTimeOrdinal(t, utcOffset, n, sod);
  }

  /** `LocalDateTime` once the day ordinal and the second of the day are known. */
  lemma {:induction false} LocalDateTimeOrdinal(t: int, utcOffset: int, n: int, sod: int)
    requires 1 <= n <= MaxOrdinal && 0 <= sod < 86400
    requires (t + utcOffset) / 86400 + EpochOrdinal == n && (t + utcOffset) % 86400 == sod
    ensures LocalDateTime(t, utcOffset) == Ok(AtSecondOfDay(n, sod))
  {
  }

  /** Every valid local time is reached from its own timestamp, so
      `LocalDateTime` fails only where no valid local time exists. */
  lemma {:induction false} TimestampRoundTrip(dt: DateTime, utcOffset: int)
    requires ValidDateTime(dt)
    ensures LocalDateTime(Timestamp(dt, utcOffset), utcOffset) == Ok(dt)
  {
    var o := Ordinal(dt.date);
    var sod := dt.hour * 3600 + dt.minute * 60 + dt.second;
    LocalDateTimeAt(Timestamp(dt, utcOffset), utcOffset, o, sod);
    ClockSplit(sod, dt.hour, dt.minute, dt.second);
    OrdinalRoundTrip(dt.date);
  }
}
