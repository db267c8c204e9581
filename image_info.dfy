/** The metadata accessors of `ImageInfo` in codes/image_info.py.

    Every property is a function of the metadata map read from the image. The
    local time zone that `datetime.fromtimestamp` consults is the parameter
    `utcOffset`, in seconds east of UTC. A property that raises is an `Err`
    carrying the exception kind; one that returns `None` is `Ok(None)`.
 */
module ImageInfo {
  import opened Wrappers
  import opened Text
  import opened Calendar
  import opened Strftime
  import opened Strptime
  import opened Exif
  import opened Sexagesimal

  // ---------------------------------------------------------------------------
  // Reading the metadata

  /** `_read_exif_metadata`: the tags read from the file, or the empty map when
      opening or reading the file raised (`None` here). */
  function ReadExifMetadata(read: Option<Metadata>): Metadata
  {
    match read
    case Some(tags) => tags
    case None => map[]
  }

  // ---------------------------------------------------------------------------
  // Choosing the timestamp text

  /** The tags consulted for the timestamp, in priority order. */
  const DateTimeTags := [DateTimeTag, DateTimeOriginalTag]

  /** `[md.get(k) for k in keys if md.get(k)]`: the non-empty values, in key order. */
  function TruthyValues(md: Metadata, keys: seq<string>): (r: seq<string>)
    ensures forall i :: 0 <= i < |r| ==> r[i] != ""
    ensures |r| <= |keys|
    ensures r == [] <==> forall i :: 0 <= i < |keys| ==> !Truthy(Get(md, keys[i]))
    ensures r != [] ==> exists i :: 0 <= i < |keys| && Truthy(Get(md, keys[i])) && r[0] == md[keys[i]]
                                    && forall j :: 0 <= j < i ==> !Truthy(Get(md, keys[j]))
  {
    if keys == [] then []
    else
      var rest := TruthyValues(md, keys[1..]);
      if Truthy(Get(md, keys[0])) then
        [md[keys[0]]] + rest
      else
        assert rest == [] <==> forall i :: 0 <= i < |keys| ==> !Truthy(Get(md, keys[i])) by {
          assert forall i :: 1 <= i < |keys| ==> keys[i] == keys[1..][i - 1];
        }
        assert rest != [] ==> exists i :: 0 <= i < |keys| && Truthy(Get(md, keys[i])) && rest[0] == md[keys[i]]
                                          && forall j :: 0 <= j < i ==> !Truthy(Get(md, keys[j])) by {
          if rest != [] {
            var k :| 0 <= k < |keys[1..]| && Truthy(Get(md, keys[1..][k])) && rest[0] == md[keys[1..][k]]
                     && forall j :: 0 <= j < k ==> !Truthy(Get(md, keys[1..][j]));
            assert keys[k + 1] == keys[1..][k];
            forall j | 0 <= j < k + 1
              ensures !Truthy(Get(md, keys[j]))
            {
              if j > 0 {
                assert keys[j] == keys[1..][j - 1];
              }
            }
          }
        }
        rest
  }

  /** `get_datetime_info`: the first non-empty value among `Exif.Image.DateTime`
      and `Exif.Photo.DateTimeOriginal`, in that order, or None. */
  function DateTimeInfo(md: Metadata): (r: Option<string>)
    ensures r.None? <==> !Truthy(Get(md, DateTimeTag)) && !Truthy(Get(md, DateTimeOriginalTag))
    ensures Truthy(Get(md, DateTimeTag)) ==> r == Some(md[DateTimeTag])
    ensures !Truthy(Get(md, DateTimeTag)) && Truthy(Get(md, DateTimeOriginalTag)) ==> r == Some(md[DateTimeOriginalTag])
  {
    var values := TruthyValues(md, DateTimeTags);
    assert DateTimeTags[0] == DateTimeTag && DateTimeTags[1] == DateTimeOriginalTag;
    if values == [] then None else Some(values[0])
  }

  // ---------------------------------------------------------------------------
  // Parsing the timestamp text

  /** The three layouts `_parse_datetime_info` tells apart. */
  datatype Shape = EpochMillis | MonthNamed | ColonDelimited

  /** The layout of a timestamp text: all digits are epoch milliseconds; else
      any letter means the month-name layout; else the colon layout. */
  function ShapeOf(s: string): (r: Shape)
    ensures r == EpochMillis <==> AllDigits(s)
    ensures r == MonthNamed ==> AnyLetter(s)
    ensures r == ColonDelimited ==> !AnyLetter(s) && !AllDigits(s)
    ensures s != [] && AllDigits(s) ==> !AnyLetter(s)
  {
    if AllDigits(s) then EpochMillis
    else if AnyLetter(s) then MonthNamed
    else ColonDelimited
  }

  /** `_parse_datetime_info`: epoch milliseconds go through
      `fromtimestamp(int(s) / 1000)`, the other layouts through `strptime`. */
  function ParseDateTimeInfo(s: string, utcOffset: int): (r: Result<DateTime>)
    ensures r.Ok? ==> ValidDateTime(r.value)
    ensures r.Err? ==> r.error == ValueError
    ensures ShapeOf(s) == EpochMillis && r.Ok? ==> Timestamp(r.value, utcOffset) == DecimalValue(s) / 1000
  {
    match ShapeOf(s)
    case EpochMillis =>
      // int() raises ValueError for '' and for more than MaxIntDigits digits
      (match PythonInt(s)
       case None => Err(ValueError)
       case Some(millis) => LocalDateTime(millis / 1000, utcOffset))
    case MonthNamed => ParseMonthName(s)
    case ColonDelimited => ParseColon(s)
  }

  /** A colon-layout text has neither letters nor only digits. */
  lemma {:induction false} ColonStampShape(dt: DateTime)
    requires InDirectiveRanges(dt)
    ensures ShapeOf(ColonStamp(dt)) == ColonDelimited
  {
    ColonStampNoLetter(dt);
  }

  /** A month-name text starts with a letter. */
  lemma {:induction false} MonthNameStampShape(dt: DateTime, meridiem: string)
    requires InDirectiveRanges(dt)
    requires meridiem == "AM" || meridiem == "PM"
    ensures ShapeOf(MonthNameStamp(dt, meridiem)) == MonthNamed
  {
    var m := dt.date.month;
    assert IsLetter(MonthName(m)[0]) by {
      if m == 1 {} else if m == 2 {} else if m == 3 {} else if m == 4 {} else if m == 5 {} else if m == 6 {}
      else if m == 7 {} else if m == 8 {} else if m == 9 {} else if m == 10 {} else if m == 11 {} else {}
    }
    assert MonthNameStamp(dt, meridiem)[0] == MonthAbbreviation(m)[0] == MonthName(m)[0];
  }

  /** Epoch milliseconds name the local time of their whole second. */
  lemma {:induction false} ParseEpochMillis(dt: DateTime, utcOffset: int, millis: nat)
    requires ValidDateTime(dt)
    requires millis / 1000 == Timestamp(dt, utcOffset)
    requires |DecimalText(millis)| <= MaxIntDigits
    ensures ParseDateTimeInfo(DecimalText(millis), utcOffset) == Ok(dt)
  {
    TimestampRoundTrip(dt, utcOffset);
  }

  /** The colon layout parses to the fields it shows, or fails when they are no
      valid date and time. */
  lemma {:induction false} ParseColonText(dt: DateTime, utcOffset: int)
    requires InDirectiveRanges(dt)
    ensures ParseDateTimeInfo(ColonStamp(dt), utcOffset) == if ValidDateTime(dt) then Ok(dt) else Err(ValueError)
  {
    ColonStampShape(dt);
    ColonRoundTrip(dt);
  }

  /** The month-name layout parses to the fields it shows whichever meridiem
      follows them: `%p` does not move an hour read by `%H`. */
  lemma {:induction false} ParseMonthNameText(dt: DateTime, meridiem: string, utcOffset: int)
    requires InDirectiveRanges(dt)
    requires meridiem == "AM" || meridiem == "PM"
    ensures ParseDateTimeInfo(MonthNameStamp(dt, meridiem), utcOffset) == if ValidDateTime(dt) then Ok(dt) else Err(ValueError)
  {
    MonthNameStampShape(dt, meridiem);
    MonthNameRoundTrip(dt, meridiem);
  }

  // ---------------------------------------------------------------------------
  // The rendered properties

  /** `date`: the timestamp rendered `'%B %d, %Y'`; None without a timestamp. */
  function DateDisplay(md: Metadata, utcOffset: int): (r: Result<Option<string>>)
    ensures r == Ok(None) <==> DateTimeInfo(md).None?
    ensures r.Err? ==> r.error == ValueError
  {
    match DateTimeInfo(md)
    case None => Ok(None)
    case Some(s) =>
      var dt :- ParseDateTimeInfo(s, utcOffset);
      Ok(Some(LongDate(dt.date)))
  }

  /** `time`: the timestamp rendered `'%I:%M %p'`; None without a timestamp. */
  function TimeDisplay(md: Metadata, utcOffset: int): (r: Result<Option<string>>)
    ensures r == Ok(None) <==> DateTimeInfo(md).None?
    ensures r.Err? ==> r.error == ValueError
  {
    match DateTimeInfo(md)
    case None => Ok(None)
    case Some(s) =>
      var dt :- ParseDateTimeInfo(s, utcOffset);
      Ok(Some(ClockTime(dt.hour, dt.minute)))
  }

  /** `date` and `time` parse the same text: both fail or neither does. */
  lemma {:induction false} DateAndTimeFailTogether(md: Metadata, utcOffset: int)
    ensures DateDisplay(md, utcOffset).Err? <==> TimeDisplay(md, utcOffset).Err?
  {
  }

  /** What `date` and `time` show once the timestamp text is known to parse
      to `dt`: a proof step shared by `MeridiemIgnored`, `ColonTimeShown`,
      `EpochTimeShown` and the examples below. */
  lemma {:induction false} RenderedTimestamp(md: Metadata, utcOffset: int, dt: DateTime)
    requires DateTimeInfo(md).Some?
    requires ParseDateTimeInfo(DateTimeInfo(md).value, utcOffset) == Ok(dt)
    ensures DateDisplay(md, utcOffset) == Ok(Some(LongDate(dt.date)))
    ensures TimeDisplay(md, utcOffset) == Ok(Some(ClockTime(dt.hour, dt.minute)))
  {
  }

  /** A month-name timestamp shows the hour as written, with the meridiem of
      that hour, whatever meridiem the text carried: `'Dec 8, 2018 8:14:03 PM'`
      shows `'08:14 AM'`. */
  lemma {:induction false} MeridiemIgnored(md: Metadata, utcOffset: int, dt: DateTime, meridiem: string)
    requires ValidDateTime(dt)
    requires meridiem == "AM" || meridiem == "PM"
    requires DateTimeInfo(md) == Some(MonthNameStamp(dt, meridiem))
    ensures TimeDisplay(md, utcOffset) == Ok(Some(ClockTime(dt.hour, dt.minute)))
    ensures DateDisplay(md, utcOffset) == Ok(Some(LongDate(dt.date)))
  {
    ParseMonthNameText(dt, meridiem, utcOffset);
    RenderedTimestamp(md, utcOffset, dt);
  }

  /** `time` of a colon-layout `Exif.Image.DateTime`: its hour and minute in
      twelve-hour form when the date and time are valid, a ValueError
      otherwise. */
  lemma {:induction false} ColonTimeShown(md: Metadata, utcOffset: int, dt: DateTime)
    requires InDirectiveRanges(dt)
    requires Get(md, DateTimeTag) == Some(ColonStamp(dt))
    ensures TimeDisplay(md, utcOffset) ==
      if ValidDateTime(dt) then Ok(Some(ClockTime(dt.hour, dt.minute))) else Err(ValueError)
  {
    assert DateTimeInfo(md) == Some(ColonStamp(dt)) by {
      ColonStampNoLetter(dt);
    }
    ParseColonText(dt, utcOffset);
    if ValidDateTime(dt) {
      RenderedTimestamp(md, utcOffset, dt);
    }
  }

  /** `time` of epoch milliseconds: the local hour and minute of their whole
      second. */
  lemma {:induction false} EpochTimeShown(md: Metadata, utcOffset: int, dt: DateTime, millis: nat)
    requires ValidDateTime(dt)
    requires millis / 1000 == Timestamp(dt, utcOffset)
    requires |DecimalText(millis)| <= MaxIntDigits
    requires Get(md, DateTimeTag) == Some(DecimalText(millis))
    ensures TimeDisplay(md, utcOffset) == Ok(Some(ClockTime(dt.hour, dt.minute)))
  {
    assert DateTimeInfo(md) == Some(DecimalText(millis));
    ParseEpochMillis(dt, utcOffset, millis);
    RenderedTimestamp(md, utcOffset, dt);
  }

  lemma {:induction false} ColonExampleStamp()
    ensures ColonStamp(DateTime(Date(2017, 4, 1), 18, 57, 18)) == "2017:04:01 18:57:18"
  {
    var dt := DateTime(Date(2017, 4, 1), 18, 57, 18);
    assert ColonStamp(dt) == PadDecimal(2017, 4) + (":" + (PadDecimal(4, 2) + (":" + (PadDecimal(1, 2)
      + (" " + (PadDecimal(18, 2) + (":" + (PadDecimal(57, 2) + (":" + PadDecimal(18, 2))))))))));
    assert PadDecimal(2017, 4) == "2017" by { PadFour(2017); }
    assert PadDecimal(4, 2) == "04" by { PadTwo(4); }
    assert PadDecimal(1, 2) == "01" by { PadTwo(1); }
    assert PadDecimal(18, 2) == "18" by { PadTwo(18); }
    assert PadDecimal(57, 2) == "57" by { PadTwo(57); }
    ColonExampleJoin();
  }

  lemma {:induction false} ColonExampleJoin()
    ensures "2017" + (":" + ("04" + (":" + ("01" + (" " + ("18" + (":" + ("57" + (":" + "18")))))))))
      == "2017:04:01 18:57:18"
  {
  }

  lemma {:induction false} ColonExampleDate()
    ensures LongDate(Date(2017, 4, 1)) == "April 01, 2017"
  {
    var d := Date(2017, 4, 1);
    assert LongDate(d) == MonthName(4) + (" " + PadDecimal(1, 2) + ", " + PadDecimal(2017, 4));
    assert MonthName(4) == "April";
    assert PadDecimal(1, 2) == "01" by { PadTwo(1); }
    assert PadDecimal(2017, 4) == "2017" by { PadFour(2017); }
    ColonExampleDateJoin();
  }

  lemma {:induction false} ColonExampleDateJoin()
    ensures "April" + (" " + "01" + ", " + "2017") == "April 01, 2017"
  {
  }

  lemma {:induction false} ColonExampleTime()
    ensures ClockTime(18, 57) == "06:57 PM"
  {
    assert ClockTime(18, 57) == PadDecimal(6, 2) + ":" + PadDecimal(57, 2) + " " + "PM" by {
      assert Hour12(18) == 6 && Meridiem(18) == "PM";
    }
    assert PadDecimal(6, 2) == "06" by { PadTwo(6); }
    assert PadDecimal(57, 2) == "57" by { PadTwo(57); }
    ColonExampleTimeJoin();
  }

  lemma {:induction false} ColonExampleTimeJoin()
    ensures "06" + ":" + "57" + " " + "PM" == "06:57 PM"
  {
  }

  /** `'2017:04:01 18:57:18'` shows `'April 01, 2017'` and `'06:57 PM'`. */
  lemma {:induction false} ColonExample(utcOffset: int)
    ensures DateDisplay(map[DateTimeTag := "2017:04:01 18:57:18"], utcOffset) == Ok(Some("April 01, 2017"))
    ensures TimeDisplay(map[DateTimeTag := "2017:04:01 18:57:18"], utcOffset) == Ok(Some("06:57 PM"))
  {
    var dt := DateTime(Date(2017, 4, 1), 18, 57, 18);
    ColonExampleStamp();
    ColonExampleDate();
    ColonExampleTime();
    ParseColonText(dt, utcOffset);
    RenderedTimestamp(map[DateTimeTag := "2017:04:01 18:57:18"], utcOffset, dt);
  }

  lemma {:induction false} EpochExampleStamp()
    ensures Timestamp(DateTime(Date(2018, 12, 8), 8, 14, 3), 28800) == 1544228043
  {
    assert DaysBeforeYear(2018) == 736694;
    assert DaysBeforeMonth(2018, 12) == 334;
  }

  lemma {:induction false} EpochExampleDate()
    ensures LongDate(Date(2018, 12, 8)) == "December 08, 2018"
  {
    var d := Date(2018, 12, 8);
    assert LongDate(d) == MonthName(12) + (" " + PadDecimal(8, 2) + ", " + PadDecimal(2018, 4));
    assert MonthName(12) == "December";
    assert PadDecimal(8, 2) == "08" by { PadTwo(8); }
    assert PadDecimal(2018, 4) == "2018" by { PadFour(2018); }
    EpochExampleDateJoin();
  }

  lemma {:induction false} EpochExampleDateJoin()
    ensures "December" + (" " + "08" + ", " + "2018") == "December 08, 2018"
  {
  }

  lemma {:induction false} MorningExampleTime()
    ensures ClockTime(8, 14) == "08:14 AM"
  {
    assert ClockTime(8, 14) == PadDecimal(8, 2) + ":" + PadDecimal(14, 2) + " " + "AM" by {
      assert Hour12(8) == 8 && Meridiem(8) == "AM";
    }
    assert PadDecimal(8, 2) == "08" by { PadTwo(8); }
    assert PadDecimal(14, 2) == "14" by { PadTwo(14); }
    MorningExampleTimeJoin();
  }

  lemma {:induction false} MorningExampleTimeJoin()
    ensures "08" + ":" + "14" + " " + "AM" == "08:14 AM"
  {
  }

  /** The milliseconds 1544228043189, eight hours east of UTC, show
      `'December 08, 2018'` and `'08:14 AM'`. */
  lemma {:induction false} EpochExample()
    ensures DateDisplay(map[DateTimeTag := DecimalText(1544228043189)], 28800) == Ok(Some("December 08, 2018"))
    ensures TimeDisplay(map[DateTimeTag := DecimalText(1544228043189)], 28800) == Ok(Some("08:14 AM"))
  {
    var dt := DateTime(Date(2018, 12, 8), 8, 14, 3);
    var md := map[DateTimeTag := DecimalText(1544228043189)];
    EpochExampleDate();
    MorningExampleTime();
    EpochExampleParsed();
    assert DateTimeInfo(md) == Some(DecimalText(1544228043189));
    RenderedTimestamp(md, 28800, dt);
  }

  /** The milliseconds 1544228043189 parse, eight hours east of UTC, to
      8:14:03 on 8 December 2018. */
  lemma {:induction false} EpochExampleParsed()
    ensures ParseDateTimeInfo(DecimalText(1544228043189), 28800) == Ok(DateTime(Date(2018, 12, 8), 8, 14, 3))
  {
    EpochExampleStamp();
    EpochExampleValid();
    EpochExampleLength();
    ParseEpochMillis(DateTime(Date(2018, 12, 8), 8, 14, 3), 28800, 1544228043189);
  }

  lemma {:induction false} EpochExampleValid()
    ensures ValidDateTime(DateTime(Date(2018, 12, 8), 8, 14, 3))
  {
    assert DaysInMonth(2018, 12) == 31;
  }

  lemma {:induction false} EpochExampleLength()
    ensures |DecimalText(1544228043189)| <= MaxIntDigits
  {
    assert Pow10(13) == 10000000000000;
    DecimalTextLength(1544228043189, 13);
  }

  lemma {:induction false} MonthNameExampleStamp()
    ensures MonthNameStamp(DateTime(Date(2018, 12, 8), 8, 14, 3), "PM") == "Dec 8, 2018 8:14:03 PM"
  {
    MonthNameExampleDate();
    MonthNameExampleClock();
    var dt := DateTime(Date(2018, 12, 8), 8, 14, 3);
    MonthNameStampOf(dt, "PM", "Dec", "8", "2018", "8", "14", "03");
    MonthNameExampleJoin();
  }

  /** The texts of the date in the month-name example. */
  lemma {:induction false} MonthNameExampleDate()
    ensures MonthAbbreviation(12) == "Dec" && DecimalText(8) == "8" && PadDecimal(2018, 4) == "2018"
  {
    PadFour(2018);
  }

  /** The texts of the minute and second in the month-name example. */
  lemma {:induction false} MonthNameExampleClock()
    ensures PadDecimal(14, 2) == "14" && PadDecimal(3, 2) == "03"
  {
    PadTwo(14);
    PadTwo(3);
  }

  /** `MonthNameStamp` from the texts of its parts. */
  lemma {:induction false} MonthNameStampOf(dt: DateTime, meridiem: string,
                                            w: string, day: string, year: string, hour: string, minute: string, second: string)
    requires InDirectiveRanges(dt) && (meridiem == "AM" || meridiem == "PM")
    requires MonthAbbreviation(dt.date.month) == w && DecimalText(dt.date.day) == day && PadDecimal(dt.date.year, 4) == year
    requires DecimalText(dt.hour) == hour && PadDecimal(dt.minute, 2) == minute && PadDecimal(dt.second, 2) == second
    ensures MonthNameStamp(dt, meridiem) ==
      w + (" " + (day + ("," + (" " + (year + (" " + (hour + (":" + (minute + (":" + (second + (" " + meridiem))))))))))))
  {
  }

  lemma {:induction false} MonthNameExampleJoin()
    ensures "Dec" + (" " + ("8" + ("," + (" " + ("2018" + (" " + ("8" + (":" + ("14" + (":" + ("03" + (" " + "PM"))))))))))))
      == "Dec 8, 2018 8:14:03 PM"
  {
  }

  /** `'Dec 8, 2018 8:14:03 PM'` shows `'08:14 AM'`: the PM is not applied. */
  lemma {:induction false} MonthNameExample(utcOffset: int)
    ensures TimeDisplay(map[DateTimeTag := "Dec 8, 2018 8:14:03 PM"], utcOffset) == Ok(Some("08:14 AM"))
  {
    MonthNameExampleStamp();
    MorningExampleTime();
    MeridiemIgnored(map[DateTimeTag := "Dec 8, 2018 8:14:03 PM"], utcOffset, DateTime(Date(2018, 12, 8), 8, 14, 3), "PM");
  }

  // ---------------------------------------------------------------------------
  // GPS coordinates

  /** One coordinate: the components of `text` combined as the sum of
      `v / 60**i`, rounded to six decimals. No hemisphere sign is applied. */
  function Degrees(text: string): (r: Result<real>)
    ensures r.Ok? ==> r.value >= 0.0
    ensures r.Err? ==> r.error == SyntaxError || r.error == ZeroDivisionError
    ensures r.Err? <==> EvalAll(SplitWhitespace(text)).Err?
  {
    var values :- EvalAll(SplitWhitespace(text));
    WeightedSumNonNegative(values);
    Round6NonNegative(WeightedSum(values));
    Ok(Round6(WeightedSum(values)))
  }

  /** `coordinates`: both coordinates when both GPS values are non-empty,
      latitude evaluated first; None otherwise. */
  function Coordinates(md: Metadata): (r: Result<Option<(real, real)>>)
    ensures r == Ok(None) <==> !Truthy(Get(md, LatitudeTag)) || !Truthy(Get(md, LongitudeTag))
    ensures r.Ok? && r.value.Some? ==> r.value.value.0 >= 0.0 && r.value.value.1 >= 0.0
    ensures r.Err? ==> Degrees(md[LatitudeTag]).Err? || Degrees(md[LongitudeTag]).Err?
    ensures r.Ok? && r.value.Some? ==>
      Degrees(md[LatitudeTag]) == Ok(r.value.value.0) && Degrees(md[LongitudeTag]) == Ok(r.value.value.1)
    ensures Truthy(Get(md, LatitudeTag)) && Truthy(Get(md, LongitudeTag)) && Degrees(md[LatitudeTag]).Err? ==>
      r == Err(Degrees(md[LatitudeTag]).error)
    ensures Truthy(Get(md, LatitudeTag)) && Truthy(Get(md, LongitudeTag)) && Degrees(md[LatitudeTag]).Ok? ==>
      r == if Degrees(md[LongitudeTag]).Err? then Err(Degrees(md[LongitudeTag]).error)
           else Ok(Some((Degrees(md[LatitudeTag]).value, Degrees(md[LongitudeTag]).value)))
  {
    var latitude := Get(md, LatitudeTag);
    var longitude := Get(md, LongitudeTag);
    if Truthy(latitude) && Truthy(longitude) then
      var lat :- Degrees(latitude.value);
      var lon :- Degrees(longitude.value);
      Ok(Some((lat, lon)))
    else
      Ok(None)
  }

  /** `n1/d1 n2/d2 ...` written by EXIF evaluates to the rounded sexagesimal
      value of the rationals, or raises SyntaxError when a numeral is too
      long to compile. */
  lemma {:induction false} DegreesOfRationals(ns: seq<nat>, ds: seq<nat>)
    requires |ns| == |ds|
    requires forall i :: 0 <= i < |ds| ==> ds[i] > 0
    ensures Degrees(JoinSpace(RationalTexts(ns, ds))) ==
      if AllFit(ns, ds) then Ok(Round6(WeightedSum(Quotients(ns, ds)))) else Err(SyntaxError)
  {
    var ws := RationalTexts(ns, ds);
    forall i | 0 <= i < |ws|
      ensures ws[i] != [] && NoSpace(ws[i])
    {
      RationalTextIsToken(ns[i], ds[i]);
    }
    SplitJoinSpace(ws);
    EvalRationalTexts(ns, ds);
  }

  /** `'37/1 25/1 0/1'` and `'122/1 5/1 0/1'` give (37.416667, 122.083333). */
  lemma {:induction false} CoordinatesExample()
    ensures Coordinates(map[LatitudeTag := JoinSpace(RationalTexts([37, 25, 0], [1, 1, 1])),
                            LongitudeTag := JoinSpace(RationalTexts([122, 5, 0], [1, 1, 1]))])
            == Ok(Some((37.416667, 122.083333)))
  {
    var lat := JoinSpace(RationalTexts([37, 25, 0], [1, 1, 1]));
    var lon := JoinSpace(RationalTexts([122, 5, 0], [1, 1, 1]));
    LatitudeExample();
    LongitudeExample();
    CoordinatesOf(lat, lon, 37.416667, 122.083333);
  }

  /** Two non-empty GPS values that convert give the pair of their degrees. */
  lemma {:induction false} CoordinatesOf(lat: string, lon: string, x: real, y: real)
    requires lat != "" && lon != ""
    requires Degrees(lat) == Ok(x) && Degrees(lon) == Ok(y)
    ensures Coordinates(map[LatitudeTag := lat, LongitudeTag := lon]) == Ok(Some((x, y)))
  {
    var md := map[LatitudeTag := lat, LongitudeTag := lon];
    assert Get(md, LatitudeTag) == Some(lat) && Get(md, LongitudeTag) == Some(lon);
  }

  /** `'37/1 25/1 0/1'` is 37.416667 degrees. */
  lemma {:induction false} LatitudeExample()
    ensures JoinSpace(RationalTexts([37, 25, 0], [1, 1, 1])) != ""
    ensures Degrees(JoinSpace(RationalTexts([37, 25, 0], [1, 1, 1]))) == Ok(37.416667)
  {
    RoundedWholes(37, 25, 0, 37416667);
    SmallFits(37);
    SmallFits(25);
    SmallFits(0);
    assert Micro(37416667) == 37.416667;
  }

  /** `'122/1 5/1 0/1'` is 122.083333 degrees. */
  lemma {:induction false} LongitudeExample()
    ensures JoinSpace(RationalTexts([122, 5, 0], [1, 1, 1])) != ""
    ensures Degrees(JoinSpace(RationalTexts([122, 5, 0], [1, 1, 1]))) == Ok(122.083333)
  {
    RoundedWholes(122, 5, 0, 122083333);
    SmallFits(122);
    SmallFits(5);
    SmallFits(0);
    assert Micro(122083333) == 122.083333;
  }

  /** Whole degrees, minutes and seconds `a/1 b/1 c/1` within half a step
      of the grid point `k` show as that point, unless a numeral is too long
      to compile. */
  lemma {:induction false} RoundedWholes(a: nat, b: nat, c: nat, k: int)
    requires k as real - 0.5 <= (a as real + b as real / 60.0 + c as real / 3600.0) * 1000000.0 < k as real + 0.5
    ensures Degrees(JoinSpace(RationalTexts([a, b, c], [1, 1, 1]))) ==
      if FitsLiteral(a) && FitsLiteral(b) && FitsLiteral(c) then Ok(Micro(k)) else Err(SyntaxError)
  {
    AllFitWholes(a, b, c);
    var x := WeightedSum(Quotients([a, b, c], [1, 1, 1]));
    assert x == a as real + b as real / 60.0 + c as real / 3600.0 by {
      WeightedSumOfThree(a, b, c, 1, 1, 1);
      OverOne(a);
      OverOne(b);
      OverOne(c);
    }
    RoundsTo(x, k);
    DegreesOfRationals([a, b, c], [1, 1, 1]);
  }

  /** `Round6(x)` is the grid point `k` when `x` lies within half a step of it. */
  lemma {:induction false} RoundsTo(x: real, k: int)
    requires k as real - 0.5 <= x * 1000000.0 < k as real + 0.5
    ensures Round6(x) == Micro(k)
  {
    assert (x * 1000000.0 + 0.5).Floor == k;
  }

  // ---------------------------------------------------------------------------
  // An unreadable file

  /** A file whose metadata cannot be read yields None for every property. */
  lemma {:induction false} UnreadableFile(utcOffset: int)
    ensures DeviceMake(ReadExifMetadata(None)) == None
    ensures DeviceModel(ReadExifMetadata(None)) == None
    ensures DateDisplay(ReadExifMetadata(None), utcOffset) == Ok(None)
    ensures TimeDisplay(ReadExifMetadata(None), utcOffset) == Ok(None)
    ensures Coordinates(ReadExifMetadata(None)) == Ok(None)
  {
  }
}
