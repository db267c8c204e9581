# EXIF metadata normalisation, modelled in Dafny

The image viewer reads a photo's EXIF tags into a map from tag names
(`Exif.Image.DateTime`, `Exif.GPSInfo.GPSLatitude`, ...) to strings. It then
derives the values it shows from that map:

- the camera make and model;
- the date (and, in the newer version, the time) the photo was taken;
- the GPS position in decimal degrees;
- whether a file counts as an image at all.

There are two versions of these accessors:

- the `ImageInfo` class of `codes/image_info.py`;
- the older class and `is_image` of `codes/image_viewer.py`.

They differ in several details, so each gets its own module. A third module
compares them.

| module | file | what it holds |
|---|---|---|
| `Wrappers` | wrappers.dfy | `Option`, `Result` and the Python exceptions the accessors can raise (`Raised`) |
| `Text` | text.dfy | ASCII letters and digits, Python's whitespace set, `str.split()`, `str.lower()`, `int()` of a string, decimal rendering |
| `Calendar` | calendar.dfy | proleptic Gregorian dates, day ordinals as Python's `datetime` numbers them, and `fromtimestamp` with an explicit UTC offset |
| `Strftime` | strftime.dfy | the renderings `'%B %d, %Y'` and `'%I:%M %p'` |
| `Strptime` | strptime.dfy | the three `strptime` layouts used: `'%Y:%m:%d %H:%M:%S'`, `'%b %d, %Y %H:%M:%S %p'` and `'%b %d, %Y'` |
| `Exif` | exif.dfy | the metadata map, `dict.get`, and the tag names |
| `Sexagesimal` | sexagesimal.dfy | `eval` of a rational GPS component (`"37/1"`), sums of degrees, minutes and seconds, and `round(x, 6)` |
| `ImageInfo` | image_info.dfy | `codes/image_info.py` |
| `ImageViewer` | image_viewer.dfy | `codes/image_viewer.py` |
| `Versions` | versions.dfy | where the two versions agree and where they differ |

The metadata map is a Dafny `map<string, string>`. Reading the file is a
parameter: `ImageInfo.ReadExifMetadata` takes the tags that were read, or
`None` when opening or reading the file raised.

The local time zone is a parameter too: a fixed `utcOffset` in seconds.
Every Python exception an accessor lets escape becomes an `Err` of the
matching `Raised` kind. Examples are a `ValueError` from `strptime`, an
`IndexError` from `re.findall(...)[0]`, and an `OverflowError` from
`date(...)` with a year beyond a C `int`.

The date parsers are deterministic scanners for the regular expressions that
`_strptime` builds for each directive, e.g. `%m` is `1[0-2]|0[1-9]|[1-9]`.
`%b` is matched case-insensitively, and `%d`, `%H`, `%M` and `%S` take one or
two digits, alternatives in the order `_strptime` tries them. Each parser is
proved to invert its rendering (`ColonRoundTrip`, `MonthNameRoundTrip`,
`ShortDateRoundTrip`). Each accessor is also proved to produce the date a
rendered timestamp denotes.

## Model

| member | source | states |
|---|---|---|
| `ImageInfo.UnreadableFile` | codes/image_info.py:16-23 | when the file cannot be read, make and model are None and date, time and coordinates are all None, with no exception |
| `ImageInfo.TruthyValues` | codes/image_info.py:61-62 | only non-empty values survive, at most one per key; empty exactly when no key has a non-empty value, and otherwise the first element is the value of the first key that has one |
| `ImageInfo.DateTimeInfo` | codes/image_info.py:60-71 | None exactly when neither tag holds a non-empty value; `Exif.Image.DateTime` wins when non-empty, `Exif.Photo.DateTimeOriginal` is the fallback |
| `ImageInfo.ShapeOf` | codes/image_info.py:49-58 | the branch taken: all digits (the empty string included) means epoch milliseconds, otherwise any letter means the month-name layout, otherwise the colon layout |
| `ImageInfo.ParseDateTimeInfo` | codes/image_info.py:47-58 | a success is a valid date and time, and for all-digit input of at most 4300 digits it lies at the whole second `millis // 1000`; every failure is a ValueError, longer digit strings included |
| `ImageInfo.ParseEpochMillis` | codes/image_info.py:49-51 | the decimal milliseconds of any valid local date and time parse back to it, sub-second part dropped |
| `ImageInfo.ParseColonText` | codes/image_info.py:57-58 | an EXIF `'2017:04:01 18:57:18'` rendering parses back to its date and time when valid, and raises ValueError otherwise (February 30th, year 0, second 60) |
| `ImageInfo.ParseMonthNameText` | codes/image_info.py:53-55 | a `'Dec 8, 2018 8:14:03 PM'` rendering parses back to its fields when valid, and raises ValueError otherwise |
| `ImageInfo.ColonStampShape` | codes/image_info.py:54-58 | a colon-layout rendering takes the colon branch |
| `ImageInfo.MonthNameStampShape` | codes/image_info.py:53-55 | a month-name rendering takes the month-name branch |
| `ImageInfo.DateDisplay` | codes/image_info.py:37-40 | None exactly when there is no non-empty timestamp; any failure is a ValueError |
| `ImageInfo.TimeDisplay` | codes/image_info.py:42-45 | None exactly when there is no non-empty timestamp; any failure is a ValueError |
| `ImageInfo.DateAndTimeFailTogether` | codes/image_info.py:37-45 | `date` raises exactly when `time` does |
| `ImageInfo.ColonTimeShown` | codes/image_info.py:42-45 | a colon-layout `Exif.Image.DateTime` shows its hour and minute on the 12-hour clock when the date and time are valid, and raises ValueError otherwise |
| `ImageInfo.EpochTimeShown` | codes/image_info.py:42-51 | epoch milliseconds show the 12-hour clock time of the local second they fall in |
| `ImageInfo.MeridiemIgnored` | codes/image_info.py:55 | with `%H`, the AM/PM marker of a month-name timestamp changes nothing: `'8:14:03 PM'` shows as 08:14 AM |
| `ImageInfo.ColonExample` | codes/image_info.py:57-58 | `'2017:04:01 18:57:18'` shows as `April 01, 2017` at `06:57 PM` in every time zone |
| `ImageInfo.EpochExample` | codes/image_info.py:48-51 | `'1544228043189'` at UTC+8 shows as `December 08, 2018` at `08:14 AM` |
| `ImageInfo.MonthNameExample` | codes/image_info.py:53-55 | `'Dec 8, 2018 8:14:03 PM'` shows the time `08:14 AM` |
| `ImageInfo.Degrees` | codes/image_info.py:79-80 | never negative; fails exactly when some whitespace-separated component fails to evaluate, with SyntaxError or ZeroDivisionError |
| `ImageInfo.Coordinates` | codes/image_info.py:73-82 | None exactly when latitude or longitude is missing or empty; otherwise the pair is the degrees of the latitude and of the longitude, and a latitude failure is raised before a longitude failure |
| `ImageInfo.DegreesOfRationals` | codes/image_info.py:79-82 | components `n/d` of any count yield the six-decimal rounding of the sum of `n/d / 60**i`, or SyntaxError when a numeral has more than 4300 digits |
| `ImageInfo.RoundedWholes` | codes/image_info.py:79-82 | degrees, minutes and seconds given as `n/1` yield the grid point nearest to `deg + min/60 + sec/3600`, or SyntaxError when a numeral has more than 4300 digits |
| `ImageInfo.CoordinatesExample` | codes/image_info.py:73-82 | `'37/1 25/1 0/1'` and `'122/1 5/1 0/1'` give (37.416667, 122.083333) |
| `ImageViewer.SplitDateFields` | codes/image_viewer.py:41 | `re.split(r'\s+\|[:]')` yields at least one field and no field holds a separator |
| `ImageViewer.SplitInterleave` | codes/image_viewer.py:41 | splitting fields joined by colons and whitespace runs gives the fields back, empty ones included |
| `ImageViewer.IntFieldsMeaning` | codes/image_viewer.py:42 | the list comprehension succeeds exactly when every field is an `int()` literal, and keeps order and count |
| `ImageViewer.NumericDate` | codes/image_viewer.py:42-43 | a date is built only from the first three fields read by `int()` and must be valid; a non-integer field or fewer than three fields raise ValueError; a year beyond a C `int` raises OverflowError |
| `ImageViewer.ExtraFieldsIgnored` | codes/image_viewer.py:42 | fields after the third do not change the date, but every one of them must still be an integer |
| `ImageViewer.EpochDate` | codes/image_viewer.py:45-46 | the first field read as milliseconds; raises ValueError exactly when it is no integer or its second has no local date |
| `ImageViewer.EpochDateNearZero` | codes/image_viewer.py:44-46 | a first field whose local second falls on the epoch's first day shows as January 01, 1970 |
| `ImageViewer.NumericDateTaken` | codes/image_viewer.py:39-46 | a valid `year:month:day` prefix shows as its date; a ValueError falls back to epoch milliseconds from the first field; an OverflowError from the date raises OverflowError |
| `ImageViewer.MatchFrom` | codes/image_viewer.py:48 | the `\w+\s+\d+[,]\s+\d+` scanner consumes a part of its input, and all but the final stage make progress |
| `ImageViewer.LeftmostMatch` | codes/image_viewer.py:48 | the first position where the pattern matches, every earlier position failing; None only when no position matches |
| `ImageViewer.FindDate` | codes/image_viewer.py:48 | `re.findall(...)[0]` has a match exactly when the pattern matches somewhere |
| `ImageViewer.FindShortDate` | codes/image_viewer.py:48 | the leading `'Dec 8, 2018'` of a timestamp is what the pattern finds |
| `ImageViewer.WordDateTaken` | codes/image_viewer.py:48-49 | IndexError exactly when the pattern matches nowhere; any other failure is a ValueError |
| `ImageViewer.DateTaken` | codes/image_viewer.py:34-49 | None exactly when `Exif.Image.DateTime` is absent; IndexError only for text with a letter, OverflowError only for text without one |
| `ImageViewer.ColonDateTaken` | codes/image_viewer.py:39-46 | a colon-layout timestamp with a valid date shows that date at any time of day, seconds 60 and 61 included; an invalid date falls back to epoch milliseconds and, east of UTC, shows January 01, 1970 |
| `ImageViewer.EpochDateTaken` | codes/image_viewer.py:39-46 | decimal milliseconds show as the local date of their whole second |
| `ImageViewer.WideYearRaises` | codes/image_viewer.py:42-44 | `year:month:day` with a year of 2**31 or more and fields of at most 4300 digits raises OverflowError, which `except ValueError` does not catch |
| `ImageViewer.OverlongDayFallsBack` | codes/image_viewer.py:42-46 | a day field of more than 4300 digits makes `int()` raise ValueError, so the year is read as epoch milliseconds and, near the epoch, shows January 01, 1970 |
| `ImageViewer.OverlongYearRaises` | codes/image_viewer.py:42-46 | a year field of more than 4300 digits raises ValueError twice, the second time from the handler, which lets it escape |
| `ImageViewer.ShortDateTaken` | codes/image_viewer.py:47-49 | a leading `'Dec 8, 2018'` shows as its date when valid and raises ValueError otherwise, whatever non-digit text follows |
| `ImageViewer.MonthNameDateTaken` | codes/image_viewer.py:47-49 | a month-name timestamp shows its date when valid and raises ValueError otherwise; its time is never looked at |
| `ImageViewer.DigitlessDateRaises` | codes/image_viewer.py:47-48 | text with a letter and no digit raises IndexError |
| `ImageViewer.Degrees` | codes/image_viewer.py:57-60 | the unrounded `d + m/60 + s/3600` of the first three components; fewer than three raise IndexError only once all components evaluated |
| `ImageViewer.Coordinates` | codes/image_viewer.py:51-62 | None exactly when the latitude is absent; KeyError exactly when the latitude is present without a longitude; a latitude failure wins over a longitude failure |
| `ImageViewer.DegreesOfRationals` | codes/image_viewer.py:57-60 | components `n/d` yield the sum of the first three quotients, and IndexError when there are fewer than three; a numeral of more than 4300 digits raises SyntaxError first |
| `ImageViewer.DegreesOfWholes` | codes/image_viewer.py:57-60 | components `n/1` yield exactly `deg + min/60 + sec/3600`, or SyntaxError when a numeral has more than 4300 digits |
| `ImageViewer.CoordinatesExample` | codes/image_viewer.py:51-62 | `'37/1 25/1 0/1'` and `'122/1 5/1 0/1'` give 37 5/12 and 122 1/12 unrounded; a latitude alone raises KeyError |
| `ImageViewer.Name` | codes/image_viewer.py:86 | `PurePath.name`: the last path component, never containing `/` and never `.` |
| `ImageViewer.Suffix` | codes/image_viewer.py:86 | `PurePath.suffix`: empty, or a dot and at least one non-dot character ending the name, the name not starting with it |
| `ImageViewer.IsImageOnlyJpg` | codes/image_viewer.py:85-86 | as written, a file is an image exactly when its lower-cased suffix is `.jpg` |
| `ImageViewer.IsImageOf` | codes/image_viewer.py:85-86 | as written, `dir/stem.ext` is an image exactly when it is a file and `ext` lower-cased is `jpg` |
| `ImageViewer.IsImageMissesPng` | codes/image_viewer.py:85-86 | an existing `.png` file is rejected as written and accepted by the intended check |
| `ImageViewer.IsImageMissesJpeg` | codes/image_viewer.py:85-86 | an existing `.JPEG` file is rejected as written and accepted by the intended check |
| `ImageViewer.IsImageIntendedOf` | codes/image_viewer.py:85-86 | intended: `dir/stem.ext` is an image exactly when it is a file and `ext` lower-cased is `jpg`, `jpeg` or `png` |
| `Text.SplitWhitespace` | codes/image_info.py:79 | `str.split()` yields non-empty tokens without whitespace |
| `Text.SplitJoinSpace` | codes/image_info.py:79 | splitting non-empty space-free tokens joined by spaces gives them back |
| `Text.PythonInt` | codes/image_viewer.py:42 | `int()` of a non-empty string of at most 4300 ASCII digits is its decimal value; more than 4300 digits raise ValueError |
| `Calendar.Ordinal` | codes/image_info.py:51 | the day number of a valid date lies within its year and within 1..3652059 |
| `Calendar.FromOrdinal` | codes/image_info.py:51 | every day number in range is the ordinal of a valid date |
| `Calendar.OrdinalRoundTrip` | codes/image_info.py:51 | a valid date's ordinal converts back to that date |
| `Calendar.EpochDay` | codes/image_viewer.py:46 | 1970-01-01 is day 719163 |
| `Calendar.AtSecondOfDay` | codes/image_info.py:51 | a day number and a second of the day make a valid date and time on that day at that second |
| `Calendar.LocalDateTime` | codes/image_info.py:51 | `fromtimestamp`: a result is valid and has exactly the given timestamp; a failure is a ValueError |
| `Calendar.LocalDateTimeAt` | codes/image_viewer.py:46 | a timestamp whose local second falls on a given day and second of day gives that date and time |
| `Calendar.TimestampRoundTrip` | codes/image_info.py:51 | the timestamp of a valid local date and time converts back to it |
| `Strftime.LongDateInjective` | codes/image_info.py:40 | `'%B %d, %Y'` tells any two renderable dates apart |
| `Strftime.ClockTimeInjective` | codes/image_info.py:45 | `'%I:%M %p'` tells any two times of day apart to the minute |
| `Strftime.TwelveHourRoundTrip` | codes/image_info.py:45 | the `%I` hour with the `%p` marker determines the hour of day |
| `Strftime.Meridiem` | codes/image_info.py:45 | `%p` is PM exactly for hours 12 to 23 |
| `Strptime.ParseColon` | codes/image_info.py:58 | a success is a valid date and time; every failure is a ValueError |
| `Strptime.ParseMonthName` | codes/image_info.py:55 | a success is a valid date and time; every failure is a ValueError |
| `Strptime.ParseShortDate` | codes/image_viewer.py:48 | a success is a valid date; every failure is a ValueError |
| `Strptime.ColonRoundTrip` | codes/image_info.py:58 | `'%Y:%m:%d %H:%M:%S'` parses its rendering back when valid and raises ValueError otherwise |
| `Strptime.MonthNameRoundTrip` | codes/image_info.py:55 | `'%b %d, %Y %H:%M:%S %p'` parses its rendering back when valid and raises ValueError otherwise |
| `Strptime.ShortDateRoundTrip` | codes/image_viewer.py:48 | `'%b %d, %Y'` parses its rendering back when valid and raises ValueError otherwise |
| `Strptime.ColonWithoutSecondsFails` | codes/image_info.py:58 | a colon timestamp cut after the minutes raises ValueError |
| `Strptime.ColonMonthPastTwelveFails` | codes/image_info.py:58 | a two-digit month from 13 to 19 raises ValueError, whatever follows |
| `Strptime.MonthOfAbbreviationFinds` | codes/image_info.py:55 | `%b` recognises every month's abbreviation, in any case |
| `Strptime.ColonStampNoLetter` | codes/image_info.py:54 | an EXIF colon timestamp holds no letter |
| `Exif.DeviceModel` | codes/image_info.py:29-31 | None exactly when `Exif.Image.Model` is absent, otherwise its value unchanged, even when it is empty; the viewer's `device_model` (codes/image_viewer.py:26-28) is the same |
| `Exif.DeviceMake` | codes/image_info.py:33-35 | None exactly when `Exif.Image.Make` is absent, otherwise its value unchanged, even when it is empty; the viewer's `device_make` (codes/image_viewer.py:30-32) is the same |
| `Exif.Get` | codes/image_info.py:31 | `dict.get`: Some exactly when the tag is present, and then its value |
| `Sexagesimal.EvalComponent` | codes/image_info.py:79 | `eval` of a component yields a non-negative number or raises SyntaxError or ZeroDivisionError; a numeral of more than 4300 digits never evaluates |
| `Sexagesimal.EvalRationalText` | codes/image_info.py:79 | `eval("n/d")` is the true quotient n/d, and a SyntaxError exactly when `n` or `d` has more than 4300 digits |
| `Sexagesimal.EvalAll` | codes/image_info.py:79 | `map(eval, ...)` gives one value per token and fails exactly when some token fails |
| `Sexagesimal.EvalRationalTexts` | codes/image_info.py:79 | evaluating the rendered components `n/d` gives their quotients, and a SyntaxError exactly when some numeral has more than 4300 digits |
| `Sexagesimal.WeightedSumIsSexagesimal` | codes/image_info.py:79 | summing `v / 60**i` left to right is the Horner value of the sexagesimal digits |
| `Sexagesimal.ThreeComponents` | codes/image_viewer.py:58 | for three components, the sum over `60**i` is `d + m/60 + s/3600`, as the viewer computes it |
| `Sexagesimal.MinutesNeverCarry` | codes/image_info.py:79 | minutes and seconds below 60 never add a whole degree |
| `Sexagesimal.WeightedSumNonNegative` | codes/image_info.py:79 | non-negative components give non-negative degrees |
| `Sexagesimal.Round6Nearest` | codes/image_info.py:82 | `round(x, 6)` is a multiple of 10**-6, within half of one of x, and no multiple is nearer |
| `Sexagesimal.Round6Idempotent` | codes/image_info.py:82 | rounding a rounded value changes nothing |
| `Versions.ColonTimestampChosen` | codes/image_info.py:60-71 | a colon-layout `Exif.Image.DateTime` is the timestamp `ImageInfo` reads |
| `Versions.InfoColonDate` | codes/image_info.py:37-40 | `ImageInfo` shows a colon-layout date when date and time are valid, and raises ValueError otherwise |
| `Versions.ColonDatesAgree` | codes/image_viewer.py:34-49 | both versions show a valid colon-layout timestamp as the same date |
| `Versions.LeapSecondDiffers` | codes/image_viewer.py:39-43 | with second 60 or 61, `ImageInfo` raises ValueError while the viewer shows the date |
| `Versions.InvalidDateDiffers` | codes/image_viewer.py:43-46 | with an invalid date, `ImageInfo` raises ValueError while the viewer, east of UTC, shows January 01, 1970 |
| `Versions.MonthNameDatesAgree` | codes/image_viewer.py:47-49 | both versions show a valid month-name timestamp as the same date |
| `Versions.EpochDatesAgree` | codes/image_viewer.py:44-46 | both versions show epoch milliseconds as the same local date |
| `Versions.OriginalTagOnlyInInfo` | codes/image_info.py:61-62 | only `ImageInfo` falls back to `Exif.Photo.DateTimeOriginal`; the viewer shows None |
| `Versions.MissingLongitudeDiffers` | codes/image_viewer.py:53-55 | a latitude without a longitude is None in `ImageInfo` and KeyError in the viewer |
| `Versions.DegreesRounded` | codes/image_info.py:79-82 | with three components, both versions fail alike, and `ImageInfo` shows the viewer's degrees rounded to six decimals |
| `Versions.CoordinatesRounded` | codes/image_info.py:73-82 | with three components in each value, both versions fail alike, and `ImageInfo` shows the viewer's pair rounded |

## Left out

- Reading the file (`open`, `pyexiv2`) is left out. `ReadExifMetadata` takes the outcome as a parameter: the tags, or `None` for any exception. The log messages are left out.
- `metadata` is a property (codes/image_info.py:25-27) that reads the file again on every access: up to five reads in `get_datetime_info` and two in `coordinates`. The model reads the map once per accessor, so it assumes every read gives the same tags. A file that changes, or stops being readable, between two reads is not modelled.
- `int()` refuses more than 4300 digits, Python's default limit, and `eval` refuses an integer literal of more than 4300 digits with a SyntaxError. A program that changes the limit with `sys.set_int_max_str_digits` is not modelled.
- The old viewer's `get_metadata` is left out. It reads the map once in the constructor and lets every exception escape, so the model takes the map as given.
- These parts of the repository are not part of this model: the `address` geocoding, `view_on_map` and the map files, the Tk user interface, `get_from_folder` and the folder helpers, and `configs` / `helper`.
- The local time zone is a fixed `utcOffset` parameter. Time zones whose offset changes over the years (daylight saving) are not modelled.
- `fromtimestamp` / `date.fromtimestamp` fail with a ValueError in this model. Python may raise OverflowError or OSError instead for far-off timestamps, and `int(...) / 1000` may raise OverflowError for integers beyond the float range.
- Floating point is not modelled: degrees are exact reals, and `int(...) / 1000` is taken to give the whole second `millis // 1000`.
- `Sexagesimal.EvalComponent`, `ImageInfo.Degrees` and `ImageViewer.Degrees` do not model float overflow. Python raises OverflowError where a value reaches about 1.8e308: in the true division of `eval("n/d")`, in `value / 60**i` (codes/image_info.py:79-80), and in the int-plus-float sums (codes/image_viewer.py:58 and 60). The model returns the exact real instead.
- `Sexagesimal.Round6Nearest`: a tie goes up. Python's `round` rounds the binary double half-to-even, so the two can differ in the last decimal digit.
- `eval` of a GPS component is narrowed to what pyexiv2 writes: a decimal literal `n` or `n/d`. Anything else is a SyntaxError. A negative, float or otherwise arbitrary Python expression is not modelled.
- Letters and digits are ASCII only. Python's `isalpha` / `isdigit` / `\w` / `\d` also accept other Unicode letters and digits.
- `%Y` is matched as exactly four digits, as `_strptime` does. The `datetime` range is 1..9999. Years below 1000 render with four digits here; the platform's `strftime` may print fewer.
- `%p` is matched as `AM` / `PM` in any case (the C locale). Other locales are not modelled.
- `ImageViewer.ColonDateTaken`: for an invalid date, it states the 1 January 1970 fallback only for `0 <= utcOffset < 86390`. West of UTC the displayed day is 31 December 1969, which the model computes but no lemma states.
- `ImageViewer.Name` and `ImageViewer.Suffix` follow `PurePosixPath` as of Python 3.12. Windows paths and the 3.13 changes to `suffix` are not modelled. `Path.is_file()` is a parameter.

Where the behaviour of the code differs from what its own comments suggest, the model follows the code:

- `get_datetime_info` reads `Exif.Image.DateTime` before `Exif.Photo.DateTimeOriginal`.
- `time` shows no seconds.
- `coordinates` applies no hemisphere sign.
- The month-name layout pairs `%H` with `%p`, so the AM/PM marker has no effect.

## Findings

| source | as written | input that shows it | evidently intended | confidence | as-written member | corrected member |
|---|---|---|---|---|---|---|
| codes/image_viewer.py:85-86 | the suffix tuple `('.jpg', 'jpeg', 'png')` lacks the dots in its last two entries, so `Path.suffix` (which always starts with a dot) matches only `.jpg` | an existing file `photos/cat.png` or `photos/x.JPEG` is not an image | `.jpg`, `.jpeg` and `.png` files are images, in any case | high, not executed | `ImageViewer.IsImageMissesPng` | `ImageViewer.IsImageIntendedOf` |
