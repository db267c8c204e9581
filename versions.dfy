/** The two versions side by side: `ImageInfo` (codes/image_info.py) and the
    older accessors of codes/image_viewer.py read the same metadata map. These
    lemmas say where their `date`/`date_taken` and `coordinates` agree and
    where they part ways. */
module Versions {
  import opened Wrappers
  import opened Calendar
  import opened Strftime
  import opened Strptime
  import opened Exif
  import opened Sexagesimal
  import opened Text
  import Info = ImageInfo
  import Viewer = ImageViewer

  // ---------------------------------------------------------------------------
  // The date

  /** A colon-layout `Exif.Image.DateTime` is the timestamp `ImageInfo` reads. */
  lemma {:induction false} ColonTimestampChosen(md: Metadata, dt: DateTime)
    requires InDirectiveRanges(dt)
    requires Get(md, DateTimeTag) == Some(ColonStamp(dt))
    ensures Info.DateTimeInfo(md) == Some(ColonStamp(dt))
  {
    ColonStampNoLetter(dt);
  }

  /** `ImageInfo.date` of a colon-layout value: the date when date and time
      are both valid, a ValueError otherwise. */
  lemma {:induction false} InfoColonDate(md: Metadata, utcOffset: int, dt: DateTime)
    requires InDirectiveRanges(dt)
    requires Get(md, DateTimeTag) == Some(ColonStamp(dt))
    ensures Info.DateDisplay(md, utcOffset) ==
      if ValidDateTime(dt) then Ok(Some(LongDate(dt.date))) else Err(ValueError)
  {
    ColonTimestampChosen(md, dt);
    Info.ParseColonText(dt, utcOffset);
  }

  /** Both versions show a valid colon-layout timestamp the same way. */
  lemma {:induction false} ColonDatesAgree(md: Metadata, utcOffset: int, dt: DateTime)
    requires InDirectiveRanges(dt) && ValidDateTime(dt)
    requires Get(md, DateTimeTag) == Some(ColonStamp(dt))
    ensures Info.DateDisplay(md, utcOffset) == Viewer.DateTaken(md, utcOffset) == Ok(Some(LongDate(dt.date)))
  {
    InfoColonDate(md, utcOffset, dt);
    Viewer.ColonDateTaken(md, utcOffset, dt);
  }

  /** A valid date with second 60 or 61: `ImageInfo` rejects the whole
      timestamp, the viewer never looks at the time. */
  lemma {:induction false} LeapSecondDiffers(md: Metadata, utcOffset: int, dt: DateTime)
    requires InDirectiveRanges(dt) && ValidDate(dt.date) && dt.second >= 60
    requires Get(md, DateTimeTag) == Some(ColonStamp(dt))
    ensures Info.DateDisplay(md, utcOffset) == Err(ValueError)
    ensures Viewer.DateTaken(md, utcOffset) == Ok(Some(LongDate(dt.date)))
  {
    InfoColonDate(md, utcOffset, dt);
    Viewer.ColonDateTaken(md, utcOffset, dt);
  }

  /** An invalid colon-layout date (February 30th, say): `ImageInfo` raises,
      the viewer east of UTC shows 1 January 1970. */
  lemma {:induction false} InvalidDateDiffers(md: Metadata, utcOffset: int, dt: DateTime)
    requires InDirectiveRanges(dt) && !ValidDate(dt.date)
    requires 0 <= utcOffset < 86390
    requires Get(md, DateTimeTag) == Some(ColonStamp(dt))
    ensures Info.DateDisplay(md, utcOffset) == Err(ValueError)
    ensures Viewer.DateTaken(md, utcOffset) == Ok(Some(LongDate(Date(1970, 1, 1))))
  {
    InfoColonDate(md, utcOffset, dt);
    Viewer.ColonDateTaken(md, utcOffset, dt);
  }

  /** Both versions show a valid month-name timestamp the same way. */
  lemma {:induction false} MonthNameDatesAgree(md: Metadata, utcOffset: int, dt: DateTime, meridiem: string)
    requires InDirectiveRanges(dt) && ValidDateTime(dt)
    requires meridiem == "AM" || meridiem == "PM"
    requires Get(md, DateTimeTag) == Some(MonthNameStamp(dt, meridiem))
    ensures Info.DateDisplay(md, utcOffset) == Viewer.DateTaken(md, utcOffset) == Ok(Some(LongDate(dt.date)))
  {
    assert Info.DateTimeInfo(md) == Some(MonthNameStamp(dt, meridiem)) by {
      Info.MonthNameStampShape(dt, meridiem);
    }
    Info.ParseMonthNameText(dt, meridiem, utcOffset);
    Viewer.MonthNameDateTaken(md, utcOffset, dt, meridiem);
  }

  /** Both versions show epoch milliseconds as the local date of their whole
      second. */
  lemma {:induction false} EpochDatesAgree(md: Metadata, utcOffset: int, dt: DateTime, millis: nat)
    requires ValidDateTime(dt)
    requires millis / 1000 == Timestamp(dt, utcOffset)
    requires |DecimalText(millis)| <= MaxIntDigits
    requires Get(md, DateTimeTag) == Some(DecimalText(millis))
    ensures Info.DateDisplay(md, utcOffset) == Viewer.DateTaken(md, utcOffset) == Ok(Some(LongDate(dt.date)))
  {
    Info.ParseEpochMillis(dt, utcOffset, millis);
    Viewer.EpochDateTaken(md, utcOffset, dt, millis);
  }

  /** Only `ImageInfo` falls back to `Exif.Photo.DateTimeOriginal`. */
  lemma {:induction false} OriginalTagOnlyInInfo(md: Metadata, utcOffset: int, dt: DateTime)
    requires InDirectiveRanges(dt) && ValidDateTime(dt)
    requires DateTimeTag !in md
    requires Get(md, DateTimeOriginalTag) == Some(ColonStamp(dt))
    ensures Info.DateDisplay(md, utcOffset) == Ok(Some(LongDate(dt.date)))
    ensures Viewer.DateTaken(md, utcOffset) == Ok(None)
  {
    assert Info.DateTimeInfo(md) == Some(ColonStamp(dt)) by {
      ColonStampNoLetter(dt);
    }
    Info.ParseColonText(dt, utcOffset);
  }

  // ---------------------------------------------------------------------------
  // The coordinates

  /** A latitude without a longitude: `ImageInfo` gives None, the viewer
      raises KeyError. */
  lemma {:induction false} MissingLongitudeDiffers(md: Metadata)
    requires LatitudeTag in md && LongitudeTag !in md
    ensures Info.Coordinates(md) == Ok(None)
    ensures Viewer.Coordinates(md) == Err(KeyError)
  {
  }

  /** With exactly three components the versions fail alike, and otherwise
      `ImageInfo` shows the viewer's value rounded to six decimals. */
  lemma {:induction false} DegreesRounded(text: string)
    requires |SplitWhitespace(text)| == 3
    ensures Info.Degrees(text).Err? <==> Viewer.Degrees(text).Err?
    ensures Viewer.Degrees(text).Ok? ==> Info.Degrees(text) == Ok(Round6(Viewer.Degrees(text).value))
  {
    var e := EvalAll(SplitWhitespace(text));
    if e.Ok? {
      assert e.value[..3] == e.value;
    }
  }

  /** Both GPS values with three components each: the versions fail alike,
      and `ImageInfo` shows the viewer's pair rounded to six decimals. */
  lemma {:induction false} CoordinatesRounded(md: Metadata)
    requires LatitudeTag in md && LongitudeTag in md
    requires |SplitWhitespace(md[LatitudeTag])| == 3 && |SplitWhitespace(md[LongitudeTag])| == 3
    ensures Info.Coordinates(md).Err? <==> Viewer.Coordinates(md).Err?
    ensures Viewer.Coordinates(md).Ok? ==>
      Info.Coordinates(md) ==
        Ok(Some((Round6(Viewer.Coordinates(md).value.value.0), Round6(Viewer.Coordinates(md).value.value.1))))
  {
    assert md[LatitudeTag] != "" && md[LongitudeTag] != "" by {
      assert SplitWhitespace("") == [];
    }
    DegreesRounded(md[LatitudeTag]);
    DegreesRounded(md[LongitudeTag]);
  }
}
