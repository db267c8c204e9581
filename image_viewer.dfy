/** The metadata accessors of `ImageInfo` and the `is_image` filter in
    codes/image_viewer.py.

    This older version differs from codes/image_info.py: it reads only
    `Exif.Image.DateTime`, tries a numeric split before epoch milliseconds,
    searches month-name text for a `Mon D, YYYY` date, and sums exactly three
    GPS components without rounding. As there, the local time zone is the
    parameter `utcOffset` (seconds east of UTC), a raised exception is an `Err`
    and a `None` property is `Ok(None)`.
 */
module ImageViewer {
  import opened Wrappers
  import opened Text
  import opened Calendar
  import opened Strftime
  import opened Strptime
  import opened Exif
  import opened Sexagesimal

  // ---------------------------------------------------------------------------
  // `re.split(r'\s+|[:]', text)`

  /** A character that starts a separator: whitespace or a colon. */
  predicate IsSeparatorChar(c: char) { IsSpace(c) || c == ':' }

  predicate NoSeparator(s: string) { forall i :: 0 <= i < |s| ==> !IsSeparatorChar(s[i]) }

  /** A separator as the pattern matches it: one colon, or a whole whitespace run. */
  predicate Separator(t: string) {
    t == ":" || (t != [] && forall i :: 0 <= i < |t| ==> IsSpace(t[i]))
  }

  /** Length of the maximal prefix holding no separator character. */
  function FieldLength(s: string): (k: nat)
    ensures k <= |s|
    ensures NoSeparator(s[..k])
    ensures k < |s| ==> IsSeparatorChar(s[k])
  {
    if s != [] && !IsSeparatorChar(s[0]) then
      var k := 1 + FieldLength(s[1..]);
      assert s[..k] == [s[0]] + s[1..][..k - 1];
      k
    else 0
  }

  /** Length of the separator at the front of `s`: `\s+` takes the whole
      whitespace run, `[:]` one colon. */
  function SeparatorLength(s: string): (k: nat)
    requires s != [] && IsSeparatorChar(s[0])
    ensures 1 <= k <= |s|
  {
    if IsSpace(s[0]) then SpaceRun(s) else 1
  }

  /** The fields between separators, empty ones included; there is always at least one. */
  function SplitDateFields(s: string): (r: seq<string>)
    ensures |r| >= 1
    ensures forall i :: 0 <= i < |r| ==> NoSeparator(r[i])
    decreases |s|
  {
    var k := FieldLength(s);
    if k == |s| then
      assert s[..k] == s;
      [s]
    else
      [s[..k]] + SplitDateFields(s[k + SeparatorLength(s[k..])..])
  }

  /** `ws[0] + seps[0] + ws[1] + ...`: fields joined by the given separators. */
  function Interleave(ws: seq<string>, seps: seq<string>): string
    requires |ws| == |seps| + 1
    decreases |seps|
  {
    if seps == [] then ws[0] else ws[0] + (seps[0] + Interleave(ws[1..], seps[1..]))
  }

  /** Fields joined by separators, where a whitespace separator is never
      followed by an empty field (the run would absorb the next separator). */
  predicate Joinable(ws: seq<string>, seps: seq<string>) {
    && |ws| == |seps| + 1
    && (forall i :: 0 <= i < |ws| ==> NoSeparator(ws[i]))
    && (forall i :: 0 <= i < |seps| ==> Separator(seps[i]))
    && (forall i :: 0 <= i < |seps| ==> seps[i] == ":" || ws[i + 1] != [])
  }

  lemma {:induction false} FieldLengthOf(w: string, t: string)
    requires NoSeparator(w)
    requires t == [] || IsSeparatorChar(t[0])
    ensures FieldLength(w + t) == |w|
    decreases |w|
  {
    if w == [] {
      assert w + t == t;
    } else {
      assert (w + t)[1..] == w[1..] + t;
      FieldLengthOf(w[1..], t);
    }
  }

  lemma {:induction false} InterleaveStart(ws: seq<string>, seps: seq<string>)
    requires |ws| == |seps| + 1 && ws[0] != []
    ensures Interleave(ws, seps) != [] && Interleave(ws, seps)[0] == ws[0][0]
  {
  }

  /** One field and the separator after it come off the front. */
  lemma {:induction false} SplitStep(w: string, sep: string, rest: string)
    requires NoSeparator(w) && Separator(sep)
    requires sep == ":" || (rest != [] && !IsSeparatorChar(rest[0]))
    ensures SplitDateFields(w + (sep + rest)) == [w] + SplitDateFields(rest)
  {
    assert FieldLength(w + (sep + rest)) == |w| by {
      assert (sep + rest)[0] == sep[0];
      FieldLengthOf(w, sep + rest);
    }
    assert SeparatorLength(sep + rest) == |sep| by {
      if sep != ":" {
        SpaceRunOf(sep, rest);
      }
    }
    SplitJoined(w, sep, rest);
  }

  /** `SplitAt` for a string given as field, separator and remainder. */
  lemma {:induction false} SplitJoined(w: string, sep: string, rest: string)
    requires sep != [] && FieldLength(w + (sep + rest)) == |w|
    requires SeparatorLength(sep + rest) == |sep|
    ensures SplitDateFields(w + (sep + rest)) == [w] + SplitDateFields(rest)
  {
    var s := w + (sep + rest);
    var k, m := |w|, |sep|;
    assert s[k..] == sep + rest;
    SplitAt(s, k, m);
    assert s[..k] == w;
    assert s[k + m..] == rest;
  }

  /** The first field and what follows its separator. */
  lemma {:induction false} SplitAt(s: string, k: nat, m: nat)
    requires k == FieldLength(s) < |s|
    requires m == SeparatorLength(s[k..])
    ensures SplitDateFields(s) == [s[..k]] + SplitDateFields(s[k + m..])
  {
  }

  /** Splitting undoes joining. */
  lemma {:induction false} SplitInterleave(ws: seq<string>, seps: seq<string>)
    requires Joinable(ws, seps)
    ensures SplitDateFields(Interleave(ws, seps)) == ws
    decreases |seps|
  {
    if seps == [] {
      FieldLengthOf(ws[0], []);
      assert ws[0] + [] == ws[0];
    } else {
      var rest := Interleave(ws[1..], seps[1..]);
      if seps[0] != ":" {
        InterleaveStart(ws[1..], seps[1..]);
        assert !IsSeparatorChar(ws[1][0]);
      }
      SplitStep(ws[0], seps[0], rest);
      assert Joinable(ws[1..], seps[1..]) by {
        forall i | 0 <= i < |seps| - 1
          ensures seps[1..][i] == ":" || ws[1..][i + 1] != []
        {
          assert seps[i + 1] == ":" || ws[i + 2] != [];
        }
      }
      SplitInterleave(ws[1..], seps[1..]);
      assert ws == [ws[0]] + ws[1..];
    }
  }

  // ---------------------------------------------------------------------------
  // `year, month, day, *_ = [int(num) for num in fields]` and `date(...)`

  /** `[conv(num) for num in fields]`: None as soon as one field does not
      convert. */
  function ConvertAll(conv: string -> Option<int>, fields: seq<string>): (r: Option<seq<int>>)
    ensures r.Some? ==> |r.value| == |fields|
    decreases |fields|
  {
    if fields == [] then Some([])
    else match (conv(fields[0]), ConvertAll(conv, fields[1..]))
      case (Some(n), Some(ns)) => Some([n] + ns)
      case _ => None
  }

  /** The conversion succeeds exactly when every field converts, and then
      holds each field's value in place. */
  lemma {:induction false} ConvertAllMeaning(conv: string -> Option<int>, fields: seq<string>)
    ensures ConvertAll(conv, fields).Some? <==> forall i :: 0 <= i < |fields| ==> conv(fields[i]).Some?
    ensures ConvertAll(conv, fields).Some? ==>
      forall i :: 0 <= i < |fields| ==> conv(fields[i]) == Some(ConvertAll(conv, fields).value[i])
    decreases |fields|
  {
    if fields != [] {
      var tail := fields[1..];
      ConvertAllMeaning(conv, tail);
      assert forall i :: 1 <= i < |fields| ==> fields[i] == tail[i - 1];
      if ConvertAll(conv, fields).Some? {
        var vs := ConvertAll(conv, fields).value;
        assert vs == [conv(fields[0]).value] + ConvertAll(conv, tail).value;
        forall i | 0 <= i < |fields|
          ensures conv(fields[i]) == Some(vs[i])
        {
          if i > 0 {
            assert vs[i] == ConvertAll(conv, tail).value[i - 1];
          }
        }
      } else if conv(fields[0]).Some? {
        var j :| 0 <= j < |tail| && conv(tail[j]).None?;
        assert fields[j + 1] == tail[j];
      }
    }
  }

  /** Converting the fields of a concatenation converts each part. */
  lemma {:induction false} ConvertAllAppend(conv: string -> Option<int>, a: seq<string>, b: seq<string>)
    ensures ConvertAll(conv, a + b) ==
      if ConvertAll(conv, a).Some? && ConvertAll(conv, b).Some?
      then Some(ConvertAll(conv, a).value + ConvertAll(conv, b).value)
      else None
    decreases |a|
  {
    if a == [] {
      assert a + b == b;
      if ConvertAll(conv, b).Some? {
        assert [] + ConvertAll(conv, b).value == ConvertAll(conv, b).value;
      }
    } else {
      assert (a + b)[0] == a[0] && (a + b)[1..] == a[1..] + b;
      ConvertAllAppend(conv, a[1..], b);
      if ConvertAll(conv, a).Some? && ConvertAll(conv, b).Some? {
        var n, ns, ms := conv(a[0]).value, ConvertAll(conv, a[1..]).value, ConvertAll(conv, b).value;
        assert [n] + (ns + ms) == ([n] + ns) + ms;
      }
    }
  }

  /** `[int(num) for num in fields]`: None when some field is no integer. */
  function IntFields(fields: seq<string>): (r: Option<seq<int>>)
    ensures r.Some? ==> |r.value| == |fields|
  {
    ConvertAll(PythonInt, fields)
  }

  /** The comprehension succeeds exactly when every field is an `int()`
      literal, and then holds each field's value in place. */
  lemma {:induction false} IntFieldsMeaning(fields: seq<string>)
    ensures IntFields(fields).Some? <==> forall i :: 0 <= i < |fields| ==> PythonInt(fields[i]).Some?
    ensures IntFields(fields).Some? ==>
      forall i :: 0 <= i < |fields| ==> PythonInt(fields[i]) == Some(IntFields(fields).value[i])
  {
    ConvertAllMeaning(PythonInt, fields);
  }

  /** Converting the fields of a concatenation converts each part. */
  lemma {:induction false} IntFieldsAppend(a: seq<string>, b: seq<string>)
    ensures IntFields(a + b) ==
      if IntFields(a).Some? && IntFields(b).Some? then Some(IntFields(a).value + IntFields(b).value) else None
  {
    ConvertAllAppend(PythonInt, a, b);
  }

  /** The range of a C `int`, which `date()` converts its arguments to. */
  predicate IsCInt(n: int) { -0x8000_0000 <= n < 0x8000_0000 }

  /** `date(year, month, day)` from the first three converted fields. Every
      failure is a ValueError except a field beyond a C `int`, which raises
      OverflowError. */
  function NumericDate(fields: seq<string>): (r: Result<Date>)
    ensures r.Ok? ==> |fields| >= 3 && ValidDate(r.value)
    ensures r.Ok? ==> (PythonInt(fields[0]) == Some(r.value.year)
                    && PythonInt(fields[1]) == Some(r.value.month)
                    && PythonInt(fields[2]) == Some(r.value.day))
    ensures r.Err? ==> r.error == ValueError || r.error == OverflowError
    ensures (exists i :: 0 <= i < |fields| && PythonInt(fields[i]).None?) ==> r == Err(ValueError)
    ensures |fields| < 3 ==> r == Err(ValueError)
  {
    IntFieldsMeaning(fields);
    match IntFields(fields)
    case None => Err(ValueError)
    case Some(ns) =>
      if |ns| < 3 then Err(ValueError)
      else if !(IsCInt(ns[0]) && IsCInt(ns[1]) && IsCInt(ns[2])) then Err(OverflowError)
      else if ValidDate(Date(ns[0], ns[1], ns[2])) then Ok(Date(ns[0], ns[1], ns[2]))
      else Err(ValueError)
  }

  /** Fields after the third are converted but otherwise ignored: they matter
      only when one of them is no integer. */
  lemma {:induction false} ExtraFieldsIgnored(fields: seq<string>, more: seq<string>)
    requires |fields| >= 3
    ensures IntFields(more).Some? ==> NumericDate(fields + more) == NumericDate(fields)
    ensures IntFields(more).None? ==> NumericDate(fields + more) == Err(ValueError)
  {
    IntFieldsAppend(fields, more);
    if IntFields(fields).Some? && IntFields(more).Some? {
      var ns := IntFields(fields).value + IntFields(more).value;
      assert ns[..3] == IntFields(fields).value[..3];
    }
  }

  // ---------------------------------------------------------------------------
  // The epoch-milliseconds fallback

  /** `date.fromtimestamp(int(field) / 1000).strftime('%B %d, %Y')`: the whole
      second is the floor of the quotient. */
  function EpochDate(field: string, utcOffset: int): (r: Result<string>)
    ensures r.Err? ==> r.error == ValueError
    ensures r.Err? <==> PythonInt(field).None? || LocalDateTime(PythonInt(field).value / 1000, utcOffset).Err?
  {
    match PythonInt(field)
    case None => Err(ValueError)
    case Some(ms) =>
      var dt :- LocalDateTime(ms / 1000, utcOffset);
      Ok(LongDate(dt.date))
  }

  /** The milliseconds of a local time show its date. */
  lemma {:induction false} EpochDateOf(dt: DateTime, utcOffset: int, ms: int, field: string)
    requires ValidDateTime(dt)
    requires PythonInt(field) == Some(ms) && ms / 1000 == Timestamp(dt, utcOffset)
    ensures EpochDate(field, utcOffset) == Ok(LongDate(dt.date))
  {
    TimestampRoundTrip(dt, utcOffset);
  }

  /** Fewer than 1000 milliseconds past midnight local time, 1 January 1970. */
  lemma {:induction false} EpochDateNearZero(field: string, utcOffset: int)
    requires PythonInt(field).Some?
    requires 0 <= PythonInt(field).value / 1000 + utcOffset < 86400
    ensures EpochDate(field, utcOffset) == Ok(LongDate(Date(1970, 1, 1)))
  {
    var t := PythonInt(field).value / 1000;
    LocalDateTimeAt(t, utcOffset, EpochOrdinal, t + utcOffset);
    EpochDay();
  }

  // ---------------------------------------------------------------------------
  // Letter-free values

  /** The letter-free branch: split and convert; on a ValueError, the first
      field as epoch milliseconds. An OverflowError is not caught. */
  function NumericDateTaken(s: string, utcOffset: int): (r: Result<string>)
    ensures r.Err? ==> r.error == ValueError || r.error == OverflowError
    ensures NumericDate(SplitDateFields(s)).Ok? ==> r == Ok(LongDate(NumericDate(SplitDateFields(s)).value))
    ensures NumericDate(SplitDateFields(s)) == Err(ValueError) ==> r == EpochDate(SplitDateFields(s)[0], utcOffset)
    ensures NumericDate(SplitDateFields(s)) == Err(OverflowError) ==> r == Err(OverflowError)
  {
    var fields := SplitDateFields(s);
    match NumericDate(fields)
    case Ok(d) => Ok(LongDate(d))
    case Err(e) => if e == OverflowError then Err(OverflowError) else EpochDate(fields[0], utcOffset)
  }

  // ---------------------------------------------------------------------------
  // `re.findall(r'\w+\s+\d+[,]\s+\d+', text)[0]`

  /** Where an anchored match of `\w+\s+\d+[,]\s+\d+` has got to: before the
      word, inside the word, the spaces, the day digits, just past the comma,
      the second spaces, the year digits. */
  datatype Stage = Start | InWord | InGap | InDay | AfterComma | InSecondGap | InYear

  /** The match continued from `stage` over `s`, `taken` characters already
      consumed: the total length matched, or None. Every run of the pattern
      is maximal in a match (the character after a run cannot begin the next
      piece, so backtracking into a run never helps), so the regular
      expression's match is this character-by-character scan. */
  function MatchFrom(stage: Stage, s: string, taken: nat): (r: Option<nat>)
    ensures r.Some? ==> taken <= r.value <= taken + |s|
    ensures r.Some? && stage != InYear ==> taken < r.value
    decreases |s|
  {
    if s == [] then (if stage == InYear then Some(taken) else None)
    else
      var c := s[0];
      match stage
      case Start => if IsWordChar(c) then MatchFrom(InWord, s[1..], taken + 1) else None
      case InWord =>
        if IsWordChar(c) then MatchFrom(InWord, s[1..], taken + 1)
        else if IsSpace(c) then MatchFrom(InGap, s[1..], taken + 1)
        else None
      case InGap =>
        if IsSpace(c) then MatchFrom(InGap, s[1..], taken + 1)
        else if IsDigit(c) then MatchFrom(InDay, s[1..], taken + 1)
        else None
      case InDay =>
        if IsDigit(c) then MatchFrom(InDay, s[1..], taken + 1)
        else if c == ',' then MatchFrom(AfterComma, s[1..], taken + 1)
        else None
      case AfterComma => if IsSpace(c) then MatchFrom(InSecondGap, s[1..], taken + 1) else None
      case InSecondGap =>
        if IsSpace(c) then MatchFrom(InSecondGap, s[1..], taken + 1)
        else if IsDigit(c) then MatchFrom(InYear, s[1..], taken + 1)
        else None
      case InYear => if IsDigit(c) then MatchFrom(InYear, s[1..], taken + 1) else Some(taken)
  }

  /** Length of a match of `\w+\s+\d+[,]\s+\d+` anchored at the front of `s`. */
  function DateMatchLength(s: string): (r: Option<nat>)
    ensures r.Some? ==> 0 < r.value <= |s|
  {
    MatchFrom(Start, s, 0)
  }

  /** The leftmost start at or after `from` where the pattern matches. */
  function LeftmostMatch(s: string, from: nat): (r: Option<nat>)
    requires from <= |s|
    ensures r.Some? ==> from <= r.value < |s| && DateMatchLength(s[r.value..]).Some?
    ensures r.Some? ==> forall q :: from <= q < r.value ==> DateMatchLength(s[q..]).None?
    ensures r.None? ==> forall q :: from <= q <= |s| ==> DateMatchLength(s[q..]).None?
    decreases |s| - from
  {
    if DateMatchLength(s[from..]).Some? then Some(from)
    else if from == |s| then None
    else LeftmostMatch(s, from + 1)
  }

  /** The first match of the date pattern, None when there is none. */
  function FindDate(s: string): (r: Option<string>)
    ensures r.None? <==> forall q :: 0 <= q <= |s| ==> DateMatchLength(s[q..]).None?
  {
    match LeftmostMatch(s, 0)
    case None => None
    case Some(p) => Some(s[p..p + DateMatchLength(s[p..]).value])
  }

  /** The characters that keep a match inside the run of `stage`. */
  predicate StaysIn(stage: Stage, c: char) {
    || (stage == InWord && IsWordChar(c))
    || ((stage == InGap || stage == InSecondGap) && IsSpace(c))
    || ((stage == InDay || stage == InYear) && IsDigit(c))
  }

  /** A run of characters that keep the match in `stage` is consumed whole. */
  lemma {:induction false} RunIn(stage: Stage, w: string, t: string, taken: nat)
    requires forall i :: 0 <= i < |w| ==> StaysIn(stage, w[i])
    ensures MatchFrom(stage, w + t, taken) == MatchFrom(stage, t, taken + |w|)
    decreases |w|
  {
    if w == [] {
      assert w + t == t;
    } else {
      assert MatchFrom(stage, w + t, taken) == MatchFrom(stage, w[1..] + t, taken + 1) by {
        assert (w + t)[0] == w[0] && (w + t)[1..] == w[1..] + t;
        assert StaysIn(stage, w[0]);
      }
      assert forall i :: 0 <= i < |w[1..]| ==> StaysIn(stage, w[1..][i]) by {
        assert forall i :: 0 <= i < |w[1..]| ==> w[1..][i] == w[i + 1];
      }
      RunIn(stage, w[1..], t, taken + 1);
    }
  }

  /** The first character of a run and the rest of the run. */
  lemma {:induction false} RunFrom(before: Stage, stage: Stage, w: string, t: string, taken: nat)
    requires w != [] && forall i :: 0 <= i < |w| ==> StaysIn(stage, w[i])
    requires MatchFrom(before, w + t, taken) == MatchFrom(stage, w[1..] + t, taken + 1)
    ensures MatchFrom(before, w + t, taken) == MatchFrom(stage, t, taken + |w|)
  {
    RunIn(stage, w[1..], t, taken + 1);
  }

  /** A word, a space, digits, a comma, a space and digits match as a whole
      when no digit follows. */
  lemma {:induction false} DateMatchOf(w: string, dd: string, yy: string, rest: string)
    requires w != [] && forall i :: 0 <= i < |w| ==> IsWordChar(w[i])
    requires dd != [] && AllDigits(dd)
    requires yy != [] && AllDigits(yy)
    requires rest == [] || !IsDigit(rest[0])
    ensures DateMatchLength(w + (" " + (dd + ("," + (" " + (yy + rest)))))) == Some(|w| + |dd| + |yy| + 3)
  {
    WordMatch(w, dd + ("," + (" " + (yy + rest))));
    DayYearMatch(dd, yy, rest, |w| + 1);
  }

  /** The month word and the space after it take the scanner to the gap
      before the day. */
  lemma {:induction false} WordMatch(w: string, t: string)
    requires w != [] && forall i :: 0 <= i < |w| ==> IsWordChar(w[i])
    ensures MatchFrom(Start, w + (" " + t), 0) == MatchFrom(InGap, t, |w| + 1)
  {
    var t1 := " " + t;
    assert MatchFrom(Start, w + t1, 0) == MatchFrom(InWord, t1, |w|) by {
      assert (w + t1)[0] == w[0] && (w + t1)[1..] == w[1..] + t1;
      RunFrom(Start, InWord, w, t1, 0);
    }
    assert t1[0] == ' ' && t1[1..] == t;
  }

  /** The day, the comma, the space and the year of a date match as a whole
      when no digit follows. */
  lemma {:induction false} DayYearMatch(dd: string, yy: string, rest: string, taken: nat)
    requires dd != [] && AllDigits(dd)
    requires yy != [] && AllDigits(yy)
    requires rest == [] || !IsDigit(rest[0])
    ensures MatchFrom(InGap, dd + ("," + (" " + (yy + rest))), taken) == Some(taken + |dd| + |yy| + 2)
  {
    DayMatch(dd, yy + rest, taken);
    YearMatch(yy, rest, taken + |dd| + 2);
  }

  /** The day digits, the comma and the space take the scanner to the gap
      before the year. */
  lemma {:induction false} DayMatch(dd: string, t: string, taken: nat)
    requires dd != [] && AllDigits(dd)
    ensures MatchFrom(InGap, dd + ("," + (" " + t)), taken) == MatchFrom(InSecondGap, t, taken + |dd| + 2)
  {
    var t3 := "," + (" " + t);
    assert MatchFrom(InGap, dd + t3, taken) == MatchFrom(InDay, t3, taken + |dd|) by {
      assert (dd + t3)[0] == dd[0] && (dd + t3)[1..] == dd[1..] + t3;
      RunFrom(InGap, InDay, dd, t3, taken);
    }
    CommaSpace(t, taken + |dd|);
  }

  /** The comma and the one space after the day. */
  lemma {:induction false} CommaSpace(t: string, k: nat)
    ensures MatchFrom(InDay, "," + (" " + t), k) == MatchFrom(InSecondGap, t, k + 2)
  {
    var t4 := " " + t;
    assert MatchFrom(InDay, "," + t4, k) == MatchFrom(AfterComma, t4, k + 1) by {
      assert ("," + t4)[0] == ',' && ("," + t4)[1..] == t4;
    }
    assert MatchFrom(AfterComma, t4, k + 1) == MatchFrom(InSecondGap, t, k + 2) by {
      assert t4[0] == ' ' && t4[1..] == t;
    }
  }

  /** The digits of the year match to their end when no digit follows. */
  lemma {:induction false} YearMatch(yy: string, rest: string, taken: nat)
    requires yy != [] && AllDigits(yy)
    requires rest == [] || !IsDigit(rest[0])
    ensures MatchFrom(InSecondGap, yy + rest, taken) == Some(taken + |yy|)
  {
    assert (yy + rest)[0] == yy[0] && (yy + rest)[1..] == yy[1..] + rest;
    RunFrom(InSecondGap, InYear, yy, rest, taken);
  }

  // ---------------------------------------------------------------------------
  // Values with letters

  /** The letter branch: the first `Mon D, YYYY` found, read with
      `'%b %d, %Y'`; no match raises IndexError. */
  function WordDateTaken(s: string): (r: Result<string>)
    ensures r.Err? ==> r.error == ValueError || r.error == IndexError
    ensures r == Err(IndexError) <==> FindDate(s).None?
  {
    match FindDate(s)
    case None => Err(IndexError)
    case Some(text) =>
      var d :- ParseShortDate(text);
      Ok(LongDate(d))
  }

  // ---------------------------------------------------------------------------
  // `date_taken`

  /** `date_taken`: the `Exif.Image.DateTime` value rendered `'%B %d, %Y'`,
      None when the tag is absent. */
  function DateTaken(md: Metadata, utcOffset: int): (r: Result<Option<string>>)
    ensures r == Ok(None) <==> DateTimeTag !in md
    ensures r.Err? ==> r.error == ValueError || r.error == IndexError || r.error == OverflowError
    ensures r == Err(IndexError) ==> AnyLetter(md[DateTimeTag])
    ensures r == Err(OverflowError) ==> !AnyLetter(md[DateTimeTag])
  {
    match Get(md, DateTimeTag)
    case None => Ok(None)
    case Some(s) =>
      var text :- if AnyLetter(s) then WordDateTaken(s) else NumericDateTaken(s, utcOffset);
      Ok(Some(text))
  }

  // ---------------------------------------------------------------------------
  // What the layouts of the tag give

  /** Three fields that read as `d`: the date when it is valid, a ValueError
      otherwise. */
  lemma {:induction false} NumericDateOf(fields: seq<string>, d: Date)
    requires IntFields(fields) == Some([d.year, d.month, d.day])
    requires IsCInt(d.year) && IsCInt(d.month) && IsCInt(d.day)
    ensures NumericDate(fields) == if ValidDate(d) then Ok(d) else Err(ValueError)
  {
  }

  /** Digits are neither letters nor separators. */
  lemma {:induction false} DigitsOnly(s: string)
    requires AllDigits(s)
    ensures !AnyLetter(s) && NoSeparator(s)
  {
    forall i | 0 <= i < |s|
      ensures !IsLetter(s[i]) && !IsSeparatorChar(s[i])
    {
      assert IsDigit(s[i]);
    }
  }

  /** The separators of `'%Y:%m:%d %H:%M:%S'`. */
  const ColonSeparators: seq<string> := [":", ":", " ", ":", ":"]

  lemma {:induction false} InterleaveColon(y: string, mo: string, d: string, h: string, mi: string, se: string)
    ensures Interleave([y, mo, d, h, mi, se], ColonSeparators) ==
      y + (":" + (mo + (":" + (d + (" " + (h + (":" + (mi + (":" + se)))))))))
  {
    var ws := [y, mo, d, h, mi, se];
    var seps := ColonSeparators;
    assert Interleave(ws[5..], seps[5..]) == se;
    assert Interleave(ws[4..], seps[4..]) == mi + (":" + se);
    assert Interleave(ws[3..], seps[3..]) == h + (":" + (mi + (":" + se)));
    assert Interleave(ws[2..], seps[2..]) == d + (" " + (h + (":" + (mi + (":" + se)))));
    assert Interleave(ws[1..], seps[1..]) == mo + (":" + (d + (" " + (h + (":" + (mi + (":" + se)))))));
  }

  /** Six digit fields joined the colon way split back into the six. */
  lemma {:induction false} SplitSix(y: string, mo: string, d: string, h: string, mi: string, se: string)
    requires AllDigits(y) && AllDigits(mo) && AllDigits(d) && AllDigits(mi) && AllDigits(se)
    requires h != [] && AllDigits(h)
    ensures SplitDateFields(y + (":" + (mo + (":" + (d + (" " + (h + (":" + (mi + (":" + se)))))))))) ==
      [y, mo, d, h, mi, se]
  {
    var ws := [y, mo, d, h, mi, se];
    assert Joinable(ws, ColonSeparators) by {
      DigitsOnly(y);
      DigitsOnly(mo);
      DigitsOnly(d);
      DigitsOnly(h);
      DigitsOnly(mi);
      DigitsOnly(se);
    }
    SplitInterleave(ws, ColonSeparators);
    InterleaveColon(y, mo, d, h, mi, se);
  }

  /** The colon layout splits into its six numbers. */
  lemma {:induction false} ColonStampFields(dt: DateTime)
    requires InDirectiveRanges(dt)
    ensures SplitDateFields(ColonStamp(dt)) ==
      [PadDecimal(dt.date.year, 4), PadDecimal(dt.date.month, 2), PadDecimal(dt.date.day, 2)]
      + [PadDecimal(dt.hour, 2), PadDecimal(dt.minute, 2), PadDecimal(dt.second, 2)]
  {
    var y, mo, d := PadDecimal(dt.date.year, 4), PadDecimal(dt.date.month, 2), PadDecimal(dt.date.day, 2);
    var h, mi, se := PadDecimal(dt.hour, 2), PadDecimal(dt.minute, 2), PadDecimal(dt.second, 2);
    SplitSix(y, mo, d, h, mi, se);
    TwoTriples(y, mo, d, h, mi, se);
  }

  lemma {:induction false} TwoTriples<T>(a: T, b: T, c: T, d: T, e: T, f: T)
    ensures [a, b, c, d, e, f] == [a, b, c] + [d, e, f]
  {
  }

  /** The fields of the colon layout convert to its date: the time fields are
      integers too, so they change nothing. */
  lemma {:induction false} ColonFieldsRead(dt: DateTime)
    requires InDirectiveRanges(dt)
    ensures PythonInt(SplitDateFields(ColonStamp(dt))[0]) == Some(dt.date.year)
    ensures NumericDate(SplitDateFields(ColonStamp(dt))) ==
      if ValidDate(dt.date) then Ok(dt.date) else Err(ValueError)
  {
    ColonStampFields(dt);
    DateTimeFieldsRead(dt.date, dt.hour, dt.minute, dt.second);
  }

  /** The six fields of the colon layout read as the date they show. */
  lemma {:induction false} DateTimeFieldsRead(d: Date, hour: nat, minute: nat, second: nat)
    requires DateInDirectiveRanges(d) && hour < 100 && minute < 100 && second < 100
    ensures PythonInt(([PadDecimal(d.year, 4), PadDecimal(d.month, 2), PadDecimal(d.day, 2)]
      + [PadDecimal(hour, 2), PadDecimal(minute, 2), PadDecimal(second, 2)])[0]) == Some(d.year)
    ensures NumericDate([PadDecimal(d.year, 4), PadDecimal(d.month, 2), PadDecimal(d.day, 2)]
      + [PadDecimal(hour, 2), PadDecimal(minute, 2), PadDecimal(second, 2)]) ==
      if ValidDate(d) then Ok(d) else Err(ValueError)
  {
    var date := [PadDecimal(d.year, 4), PadDecimal(d.month, 2), PadDecimal(d.day, 2)];
    assert (date + [PadDecimal(hour, 2), PadDecimal(minute, 2), PadDecimal(second, 2)])[0] == date[0];
    TimeFieldsIgnored(date, hour, minute, second);
    ColonDateRead(d);
  }

  /** Time fields after a three-field date are converted and then ignored. */
  lemma {:induction false} TimeFieldsIgnored(date: seq<string>, hour: nat, minute: nat, second: nat)
    requires |date| == 3 && hour < 100 && minute < 100 && second < 100
    ensures NumericDate(date + [PadDecimal(hour, 2), PadDecimal(minute, 2), PadDecimal(second, 2)]) == NumericDate(date)
  {
    var time := [PadDecimal(hour, 2), PadDecimal(minute, 2), PadDecimal(second, 2)];
    assert IntFields(time).Some? by {
      PaddedTripleRead(hour, 2, minute, 2, second, 2);
    }
    ExtraFieldsIgnored(date, time);
  }

  /** The zero-padded date fields convert to the date. */
  lemma {:induction false} ColonDateRead(d: Date)
    requires DateInDirectiveRanges(d)
    ensures PythonInt(PadDecimal(d.year, 4)) == Some(d.year)
    ensures NumericDate([PadDecimal(d.year, 4), PadDecimal(d.month, 2), PadDecimal(d.day, 2)]) ==
      if ValidDate(d) then Ok(d) else Err(ValueError)
  {
    PaddedTripleRead(d.year, 4, d.month, 2, d.day, 2);
    NumericDateOf([PadDecimal(d.year, 4), PadDecimal(d.month, 2), PadDecimal(d.day, 2)], d);
    PaddedRead(d.year, 4);
  }

  /** `int()` reads back three zero-padded numerals. */
  lemma {:induction false} PaddedTripleRead(x: nat, wx: nat, y: nat, wy: nat, z: nat, wz: nat)
    requires 1 <= wx <= MaxIntDigits && x < Pow10(wx)
    requires 1 <= wy <= MaxIntDigits && y < Pow10(wy)
    requires 1 <= wz <= MaxIntDigits && z < Pow10(wz)
    ensures IntFields([PadDecimal(x, wx), PadDecimal(y, wy), PadDecimal(z, wz)]) == Some([x, y, z])
  {
    PaddedRead(x, wx);
    PaddedRead(y, wy);
    PaddedRead(z, wz);
    IntFieldsTriple(PadDecimal(x, wx), PadDecimal(y, wy), PadDecimal(z, wz));
  }

  /** Converting three fields that are each an integer. */
  lemma {:induction false} IntFieldsTriple(a: string, b: string, c: string)
    requires PythonInt(a).Some? && PythonInt(b).Some? && PythonInt(c).Some?
    ensures IntFields([a, b, c]) == Some([PythonInt(a).value, PythonInt(b).value, PythonInt(c).value])
  {
    var x, y, z := PythonInt(a).value, PythonInt(b).value, PythonInt(c).value;
    assert IntFields([a, b]) == Some([x, y]) by {
      IntFieldsSingle(a);
      IntFieldsSingle(b);
      IntFieldsAppend([a], [b]);
      assert [a] + [b] == [a, b] && [x] + [y] == [x, y];
    }
    assert IntFields([c]) == Some([z]) by {
      IntFieldsSingle(c);
    }
    IntFieldsAppend([a, b], [c]);
    assert [a, b] + [c] == [a, b, c] && [x, y] + [z] == [x, y, z];
  }

  /** Converting a single field. */
  lemma {:induction false} IntFieldsSingle(s: string)
    ensures IntFields([s]) == if PythonInt(s).Some? then Some([PythonInt(s).value]) else None
  {
    assert [s][0] == s && [s][1..] == [];
    assert IntFields([]) == Some([]);
    if PythonInt(s).Some? {
      assert [PythonInt(s).value] + [] == [PythonInt(s).value];
    }
  }

  /** `int()` reads a zero-padded numeral back. */
  lemma {:induction false} PaddedRead(v: nat, width: nat)
    requires 1 <= width <= MaxIntDigits && v < Pow10(width)
    ensures PythonInt(PadDecimal(v, width)) == Some(v)
  {
  }

  /** A colon-layout value shows its date; an invalid date falls through to
      the epoch reading of the year field, a few seconds after midnight on
      1 January 1970 for a zone east of UTC. */
  lemma {:induction false} ColonDateTaken(md: Metadata, utcOffset: int, dt: DateTime)
    requires InDirectiveRanges(dt)
    requires Get(md, DateTimeTag) == Some(ColonStamp(dt))
    ensures ValidDate(dt.date) ==> DateTaken(md, utcOffset) == Ok(Some(LongDate(dt.date)))
    ensures !ValidDate(dt.date) && 0 <= utcOffset < 86390 ==>
      DateTaken(md, utcOffset) == Ok(Some(LongDate(Date(1970, 1, 1))))
  {
    ColonStampNoLetter(dt);
    var fields := SplitDateFields(ColonStamp(dt));
    ColonFieldsRead(dt);
    if !ValidDate(dt.date) && 0 <= utcOffset < 86390 {
      EpochDateNearZero(fields[0], utcOffset);
    }
  }

  /** Epoch milliseconds are a single field, never a date, so the fallback
      reads them as the local date of their whole second. */
  lemma {:induction false} EpochDateTaken(md: Metadata, utcOffset: int, dt: DateTime, millis: nat)
    requires ValidDateTime(dt)
    requires millis / 1000 == Timestamp(dt, utcOffset)
    requires |DecimalText(millis)| <= MaxIntDigits
    requires Get(md, DateTimeTag) == Some(DecimalText(millis))
    ensures DateTaken(md, utcOffset) == Ok(Some(LongDate(dt.date)))
  {
    var s := DecimalText(millis);
    assert !AnyLetter(s) && NoSeparator(s) by {
      DigitsOnly(s);
    }
    assert SplitDateFields(s) == [s] by {
      FieldLengthOf(s, []);
      assert s + [] == s;
    }
    assert NumericDate([s]) == Err(ValueError);
    assert EpochDate(s, utcOffset) == Ok(LongDate(dt.date)) by {
      EpochDateOf(dt, utcOffset, millis, s);
    }
  }

  /** A year beyond a C `int` escapes the `except ValueError`: the property
      raises OverflowError instead of trying epoch milliseconds. (A field too
      long for `int()` raises ValueError first: `OverlongDayFallsBack`.) */
  lemma {:induction false} WideYearRaises(md: Metadata, utcOffset: int, year: nat, month: string, day: string)
    requires year >= 0x8000_0000 && |DecimalText(year)| <= MaxIntDigits
    requires month != [] && AllDigits(month) && |month| <= MaxIntDigits
    requires day != [] && AllDigits(day) && |day| <= MaxIntDigits
    requires Get(md, DateTimeTag) == Some(DecimalText(year) + (":" + (month + (":" + day))))
    ensures DateTaken(md, utcOffset) == Err(OverflowError)
  {
    var y := DecimalText(year);
    var s := y + (":" + (month + (":" + day)));
    DigitFieldsSplit(y, month, day);
    assert NumericDate([y, month, day]) == Err(OverflowError) by {
      WideYearFields(year, month, day);
    }
    LetterFreeTaken(md, utcOffset, s);
  }

  /** The converted fields of a year beyond a C `int`. */
  lemma {:induction false} WideYearFields(year: nat, month: string, day: string)
    requires year >= 0x8000_0000 && |DecimalText(year)| <= MaxIntDigits
    requires month != [] && AllDigits(month) && |month| <= MaxIntDigits
    requires day != [] && AllDigits(day) && |day| <= MaxIntDigits
    ensures NumericDate([DecimalText(year), month, day]) == Err(OverflowError)
  {
    NumericDateOverflows(DecimalText(year), month, day);
  }

  /** A day field too long for `int()` makes the conversion raise ValueError,
      so the first field is read as epoch milliseconds: east of UTC and below
      1000, 1 January 1970 (`'1:1:111…1'` with 4301 ones). */
  lemma {:induction false} OverlongDayFallsBack(md: Metadata, utcOffset: int, year: string, month: string, day: string)
    requires year != [] && AllDigits(year) && |year| <= MaxIntDigits
    requires month != [] && AllDigits(month) && day != [] && AllDigits(day)
    requires |day| > MaxIntDigits
    requires 0 <= DecimalValue(year) / 1000 + utcOffset < 86400
    requires Get(md, DateTimeTag) == Some(year + (":" + (month + (":" + day))))
    ensures DateTaken(md, utcOffset) == Ok(Some(LongDate(Date(1970, 1, 1))))
  {
    var s := year + (":" + (month + (":" + day)));
    DigitFieldsSplit(year, month, day);
    UnreadableField([year, month, day], 2);
    assert EpochDate(year, utcOffset) == Ok(LongDate(Date(1970, 1, 1))) by {
      EpochDateNearZero(year, utcOffset);
    }
    LetterFreeTaken(md, utcOffset, s);
  }

  /** A year field too long for `int()`: the conversion raises ValueError and
      so does the `int()` of the handler, which is not caught. */
  lemma {:induction false} OverlongYearRaises(md: Metadata, utcOffset: int, year: string, month: string, day: string)
    requires AllDigits(year) && |year| > MaxIntDigits
    requires month != [] && AllDigits(month) && day != [] && AllDigits(day)
    requires Get(md, DateTimeTag) == Some(year + (":" + (month + (":" + day))))
    ensures DateTaken(md, utcOffset) == Err(ValueError)
  {
    var s := year + (":" + (month + (":" + day)));
    DigitFieldsSplit(year, month, day);
    UnreadableField([year, month, day], 0);
    assert EpochDate(year, utcOffset) == Err(ValueError);
    LetterFreeTaken(md, utcOffset, s);
  }

  /** One field that is no integer for `int()` makes the conversion raise
      ValueError. */
  lemma {:induction false} UnreadableField(fields: seq<string>, i: nat)
    requires i < |fields| && PythonInt(fields[i]).None?
    ensures NumericDate(fields) == Err(ValueError)
  {
  }

  /** A letter-free value shows what the numeric branch gives. */
  lemma {:induction false} LetterFreeTaken(md: Metadata, utcOffset: int, s: string)
    requires Get(md, DateTimeTag) == Some(s) && !AnyLetter(s)
    ensures NumericDateTaken(s, utcOffset).Ok? ==> DateTaken(md, utcOffset) == Ok(Some(NumericDateTaken(s, utcOffset).value))
    ensures NumericDateTaken(s, utcOffset).Err? ==> DateTaken(md, utcOffset) == Err(NumericDateTaken(s, utcOffset).error)
  {
  }

  /** Digit fields joined by colons hold no letter and split back. */
  lemma {:induction false} DigitFieldsSplit(a: string, b: string, c: string)
    requires AllDigits(a) && AllDigits(b) && AllDigits(c)
    ensures !AnyLetter(a + (":" + (b + (":" + c))))
    ensures SplitDateFields(a + (":" + (b + (":" + c)))) == [a, b, c]
  {
    DigitOnlyFields(a, b, c);
    DigitsOnly(a);
    DigitsOnly(b);
    DigitsOnly(c);
    SplitThree(a, b, c);
  }

  /** Digit fields joined by colons hold no letter. */
  lemma {:induction false} DigitOnlyFields(a: string, b: string, c: string)
    requires AllDigits(a) && AllDigits(b) && AllDigits(c)
    ensures !AnyLetter(a + (":" + (b + (":" + c))))
  {
    DigitsOnly(a);
    DigitsOnly(b);
    DigitsOnly(c);
    assert !AnyLetter(":");
    NoLetterInConcat(":", c);
    NoLetterInConcat(b, ":" + c);
    NoLetterInConcat(":", b + (":" + c));
    NoLetterInConcat(a, ":" + (b + (":" + c)));
  }

  /** Integer fields whose year is beyond a C `int` raise OverflowError. */
  lemma {:induction false} NumericDateOverflows(year: string, month: string, day: string)
    requires PythonInt(year).Some? && PythonInt(month).Some? && PythonInt(day).Some?
    requires !IsCInt(PythonInt(year).value)
    ensures NumericDate([year, month, day]) == Err(OverflowError)
  {
    IntFieldsTriple(year, month, day);
  }

  /** Three separator-free fields joined by colons split back into the three. */
  lemma {:induction false} SplitThree(a: string, b: string, c: string)
    requires NoSeparator(a) && NoSeparator(b) && NoSeparator(c)
    ensures SplitDateFields(a + (":" + (b + (":" + c)))) == [a, b, c]
  {
    assert SplitDateFields(c) == [c] by {
      FieldLengthOf(c, []);
      assert c + [] == c;
    }
    SplitStep(b, ":", c);
    SplitStep(a, ":", b + (":" + c));
  }

  /** A `Mon D, YYYY` date followed by anything that does not start with a
      digit is found at the front, whole. */
  lemma {:induction false} FindShortDate(d: Date, tail: string)
    requires DateInDirectiveRanges(d)
    requires tail == [] || !IsDigit(tail[0])
    ensures FindDate(ShortDateStamp(d) + tail) == Some(ShortDateStamp(d))
  {
    var w := MonthAbbreviation(d.month);
    assert forall i :: 0 <= i < |w| ==> IsWordChar(w[i]) by {
      AbbreviationLetters(d.month);
    }
    FindDateAtFront(w, DecimalText(d.day), PadDecimal(d.year, 4), tail);
  }

  /** `word day, year` followed by anything that does not start with a digit
      is found at the front, whole. */
  lemma {:induction false} FindDateAtFront(w: string, dd: string, yy: string, tail: string)
    requires w != [] && forall i :: 0 <= i < |w| ==> IsWordChar(w[i])
    requires dd != [] && AllDigits(dd)
    requires yy != [] && AllDigits(yy)
    requires tail == [] || !IsDigit(tail[0])
    ensures FindDate(w + (" " + (dd + ("," + (" " + yy)))) + tail) == Some(w + (" " + (dd + ("," + (" " + yy)))))
  {
    var stamp := w + (" " + (dd + ("," + (" " + yy))));
    var s := stamp + tail;
    assert s == w + (" " + (dd + ("," + (" " + (yy + tail))))) && |stamp| == |w| + |dd| + |yy| + 3;
    assert DateMatchLength(s) == Some(|stamp|) by {
      DateMatchOf(w, dd, yy, tail);
    }
    assert FindDate(s) == Some(s[..|stamp|]) by {
      FindAtFront(s, |stamp|);
    }
    assert s[..|stamp|] == stamp;
  }

  /** A match at the very front is the one found. */
  lemma {:induction false} FindAtFront(s: string, n: nat)
    requires DateMatchLength(s) == Some(n)
    ensures FindDate(s) == Some(s[..n])
  {
    assert s[0..] == s;
  }

  /** A value with letters: the first `Mon D, YYYY` in it is the date, which
      `date()` accepts when valid. */
  lemma {:induction false} ShortDateTaken(md: Metadata, utcOffset: int, d: Date, tail: string)
    requires DateInDirectiveRanges(d)
    requires tail == [] || !IsDigit(tail[0])
    requires Get(md, DateTimeTag) == Some(ShortDateStamp(d) + tail)
    ensures DateTaken(md, utcOffset) == if ValidDate(d) then Ok(Some(LongDate(d))) else Err(ValueError)
  {
    FindShortDate(d, tail);
    ShortDateRoundTrip(d);
    AbbreviationLetters(d.month);
    assert (ShortDateStamp(d) + tail)[0] == MonthAbbreviation(d.month)[0];
  }

  /** The month-name layout (`Dec 8, 2018 8:14:03 AM`) shows its date. */
  lemma {:induction false} MonthNameDateTaken(md: Metadata, utcOffset: int, dt: DateTime, meridiem: string)
    requires InDirectiveRanges(dt)
    requires meridiem == "AM" || meridiem == "PM"
    requires Get(md, DateTimeTag) == Some(MonthNameStamp(dt, meridiem))
    ensures DateTaken(md, utcOffset) == if ValidDate(dt.date) then Ok(Some(LongDate(dt.date))) else Err(ValueError)
  {
    var tail := " " + (DecimalText(dt.hour) + (":" + (PadDecimal(dt.minute, 2) + (":" + (PadDecimal(dt.second, 2)
      + (" " + meridiem))))));
    assert MonthNameStamp(dt, meridiem) == ShortDateStamp(dt.date) + tail;
    ShortDateTaken(md, utcOffset, dt.date, tail);
  }

  /** Before the year digits, a match needs a digit to get anywhere. */
  lemma {:induction false} NoDigitNoMatch(stage: Stage, s: string, taken: nat)
    requires stage != InYear
    requires forall i :: 0 <= i < |s| ==> !IsDigit(s[i])
    ensures MatchFrom(stage, s, taken).None?
    decreases |s|
  {
    if s != [] {
      assert forall i :: 0 <= i < |s[1..]| ==> s[1..][i] == s[i + 1];
      NoDigitNoMatch(InWord, s[1..], taken + 1);
      NoDigitNoMatch(InGap, s[1..], taken + 1);
      NoDigitNoMatch(AfterComma, s[1..], taken + 1);
      NoDigitNoMatch(InSecondGap, s[1..], taken + 1);
    }
  }

  /** A value with letters and no digit holds no date: `[0]` of the empty
      match list raises IndexError. */
  lemma {:induction false} DigitlessDateRaises(md: Metadata, utcOffset: int)
    requires DateTimeTag in md && AnyLetter(md[DateTimeTag])
    requires forall i :: 0 <= i < |md[DateTimeTag]| ==> !IsDigit(md[DateTimeTag][i])
    ensures DateTaken(md, utcOffset) == Err(IndexError)
  {
    var s := md[DateTimeTag];
    forall q | 0 <= q <= |s|
      ensures DateMatchLength(s[q..]).None?
    {
      NoDigitNoMatch(Start, s[q..], 0);
    }
  }

  // ---------------------------------------------------------------------------
  // `coordinates`

  /** One coordinate: the first three evaluated components as degrees,
      minutes and seconds, unrounded and unsigned; fewer than three
      components raise IndexError. */
  function Degrees(text: string): (r: Result<real>)
    ensures r.Ok? ==> r.value >= 0.0
    ensures r.Err? ==> r.error == SyntaxError || r.error == ZeroDivisionError || r.error == IndexError
    ensures r == Err(IndexError) <==> EvalAll(SplitWhitespace(text)).Ok? && |SplitWhitespace(text)| < 3
    ensures r.Ok? ==> EvalAll(SplitWhitespace(text)).Ok? && |SplitWhitespace(text)| >= 3
    ensures r.Ok? ==> r.value == WeightedSum(EvalAll(SplitWhitespace(text)).value[..3])
  {
    var values :- EvalAll(SplitWhitespace(text));
    if |values| < 3 then Err(IndexError)
    else
      assert EvalComponent(SplitWhitespace(text)[0]) == Ok(values[0]);
      assert EvalComponent(SplitWhitespace(text)[1]) == Ok(values[1]);
      assert EvalComponent(SplitWhitespace(text)[2]) == Ok(values[2]);
      ThreeComponents(values[0], values[1], values[2]);
      assert values[..3] == [values[0], values[1], values[2]];
      Ok(values[0] + values[1] / 60.0 + values[2] / 3600.0)
  }

  /** `coordinates`: None without a latitude tag; with one, the longitude tag
      is looked up (KeyError when absent) before either value is evaluated,
      and the latitude is evaluated first. */
  function Coordinates(md: Metadata): (r: Result<Option<(real, real)>>)
    ensures r == Ok(None) <==> LatitudeTag !in md
    ensures r == Err(KeyError) <==> LatitudeTag in md && LongitudeTag !in md
    ensures LatitudeTag in md && LongitudeTag in md && Degrees(md[LatitudeTag]).Err? ==>
      r == Err(Degrees(md[LatitudeTag]).error)
    ensures r.Ok? && r.value.Some? ==>
      Degrees(md[LatitudeTag]) == Ok(r.value.value.0) && Degrees(md[LongitudeTag]) == Ok(r.value.value.1)
    ensures r.Ok? && r.value.Some? ==> r.value.value.0 >= 0.0 && r.value.value.1 >= 0.0
  {
    if LatitudeTag !in md then Ok(None)
    else if LongitudeTag !in md then Err(KeyError)
    else
      var lat :- Degrees(md[LatitudeTag]);
      var lon :- Degrees(md[LongitudeTag]);
      Ok(Some((lat, lon)))
  }

  /** EXIF rationals `n1/d1 n2/d2 ...`: degrees, minutes and seconds from the
      first three, IndexError with fewer; SyntaxError first when a numeral is
      too long to compile. */
  lemma {:induction false} DegreesOfRationals(ns: seq<nat>, ds: seq<nat>)
    requires |ns| == |ds|
    requires forall i :: 0 <= i < |ds| ==> ds[i] > 0
    ensures Degrees(JoinSpace(RationalTexts(ns, ds))) ==
      if !AllFit(ns, ds) then Err(SyntaxError)
      else if |ns| < 3 then Err(IndexError)
      else Ok(WeightedSum(Quotients(ns, ds)[..3]))
  {
    var ws := RationalTexts(ns, ds);
    forall i | 0 <= i < |ws|
      ensures ws[i] != [] && NoSpace(ws[i])
    {
      RationalTextIsToken(ns[i], ds[i]);
    }
    SplitJoinSpace(ws);
    EvalRationalTexts(ns, ds);
  }

  /** `'37/1 25/1 0/1'` and `'122/1 5/1 0/1'` give exactly 37 5/12 and
      122 1/12 degrees; without the longitude tag the lookup fails. */
  lemma {:induction false} CoordinatesExample()
    ensures Coordinates(map[LatitudeTag := JoinSpace(RationalTexts([37, 25, 0], [1, 1, 1])),
                            LongitudeTag := JoinSpace(RationalTexts([122, 5, 0], [1, 1, 1]))])
            == Ok(Some((37.0 + 5.0 / 12.0, 122.0 + 1.0 / 12.0)))
    ensures Coordinates(map[LatitudeTag := JoinSpace(RationalTexts([37, 25, 0], [1, 1, 1]))]) == Err(KeyError)
  {
    LatitudeExample();
    LongitudeExample();
    CoordinatesOf(JoinSpace(RationalTexts([37, 25, 0], [1, 1, 1])), JoinSpace(RationalTexts([122, 5, 0], [1, 1, 1])),
                  37.0 + 5.0 / 12.0, 122.0 + 1.0 / 12.0);
  }

  /** Both tags present and both readable give the pair of their values. */
  lemma {:induction false} CoordinatesOf(lat: string, lon: string, x: real, y: real)
    requires Degrees(lat) == Ok(x) && Degrees(lon) == Ok(y)
    ensures Coordinates(map[LatitudeTag := lat, LongitudeTag := lon]) == Ok(Some((x, y)))
  {
    var md := map[LatitudeTag := lat, LongitudeTag := lon];
    assert md[LatitudeTag] == lat && md[LongitudeTag] == lon;
  }

  /** `'37/1 25/1 0/1'` is 37 5/12 degrees. */
  lemma {:induction false} LatitudeExample()
    ensures Degrees(JoinSpace(RationalTexts([37, 25, 0], [1, 1, 1]))) == Ok(37.0 + 5.0 / 12.0)
  {
    DegreesOfWholes(37, 25, 0, 37.0 + 5.0 / 12.0);
    SmallFits(37);
    SmallFits(25);
    SmallFits(0);
  }

  /** `'122/1 5/1 0/1'` is 122 1/12 degrees. */
  lemma {:induction false} LongitudeExample()
    ensures Degrees(JoinSpace(RationalTexts([122, 5, 0], [1, 1, 1]))) == Ok(122.0 + 1.0 / 12.0)
  {
    DegreesOfWholes(122, 5, 0, 122.0 + 1.0 / 12.0);
    SmallFits(122);
    SmallFits(5);
    SmallFits(0);
  }

  /** Whole degrees, minutes and seconds written `a/1 b/1 c/1` read as
      their sexagesimal value `x`, unless a numeral is too long to compile. */
  lemma {:induction false} DegreesOfWholes(a: nat, b: nat, c: nat, x: real)
    requires x == a as real + b as real / 60.0 + c as real / 3600.0
    ensures Degrees(JoinSpace(RationalTexts([a, b, c], [1, 1, 1]))) ==
      if FitsLiteral(a) && FitsLiteral(b) && FitsLiteral(c) then Ok(x) else Err(SyntaxError)
  {
    AllFitWholes(a, b, c);
    var q := Quotients([a, b, c], [1, 1, 1]);
    assert WeightedSum(q[..3]) == x by {
      WeightedSumOfThree(a, b, c, 1, 1, 1);
      OverOne(a);
      OverOne(b);
      OverOne(c);
    }
    DegreesOfRationals([a, b, c], [1, 1, 1]);
  }

  // ---------------------------------------------------------------------------
  // `is_image`

  /** Where the last piece of a `/`-separated path starts: just past the last
      `/`, or 0. */
  function PieceStart(path: string): (k: nat)
    ensures k <= |path|
    ensures k > 0 ==> path[k - 1] == '/'
    ensures forall i :: k <= i < |path| ==> path[i] != '/'
    decreases |path|
  {
    if path == [] then 0
    else if path[|path| - 1] == '/' then |path|
    else PieceStart(path[..|path| - 1])
  }

  /** `PurePath.name`: the last piece that is neither empty nor `.` (pathlib
      drops those when it parses a path), or the empty string. */
  function Name(path: string): (r: string)
    ensures forall i :: 0 <= i < |r| ==> r[i] != '/'
    ensures r != "."
    decreases |path|
  {
    var k := PieceStart(path);
    var piece := path[k..];
    if piece != "" && piece != "." then piece
    else if k == 0 then ""
    else Name(path[..k - 1])
  }

  /** `str.rfind('.')`: the index of the last dot, -1 when there is none. */
  function LastDot(s: string): (r: int)
    ensures -1 <= r < |s|
    ensures r >= 0 ==> s[r] == '.'
    ensures forall i :: r < i < |s| ==> s[i] != '.'
    decreases |s|
  {
    if s == [] then -1
    else if s[|s| - 1] == '.' then |s| - 1
    else LastDot(s[..|s| - 1])
  }

  /** `PurePath.suffix` of a name: from the last dot on, when that dot is
      neither the first nor the last character; otherwise empty. */
  function Suffix(name: string): (r: string)
    ensures r != [] ==> 2 <= |r| < |name| && r == name[|name| - |r|..]
    ensures r != [] ==> r[0] == '.' && forall i :: 1 <= i < |r| ==> r[i] != '.'
    ensures r == [] ==> LastDot(name) <= 0 || LastDot(name) == |name| - 1
  {
    var i := LastDot(name);
    if 0 < i < |name| - 1 then name[i..] else ""
  }

  /** The suffixes `is_image` lists, as written. */
  const ImageSuffixes: seq<string> := [".jpg", "jpeg", "png"]

  /** `is_image`: a regular file whose lower-cased suffix is listed. Whether
      the path is a file is asked of the file system, here the parameter
      `isFile`. */
  predicate IsImage(path: string, isFile: bool) {
    isFile && Lower(Suffix(Name(path))) in ImageSuffixes
  }

  /** A suffix always starts with its dot, so of the three entries only
      `.jpg` can ever match. */
  lemma {:induction false} IsImageOnlyJpg(path: string, isFile: bool)
    ensures IsImage(path, isFile) <==> isFile && Lower(Suffix(Name(path))) == ".jpg"
  {
    var x := Suffix(Name(path));
    if x != [] {
      assert Lower(x)[0] == '.';
      assert "jpeg"[0] != '.' && "png"[0] != '.';
    }
  }

  /** A piece without `/` after a `/` is the last piece. */
  lemma {:induction false} PieceStartOf(a: string, b: string)
    requires a != [] && a[|a| - 1] == '/'
    requires forall i :: 0 <= i < |b| ==> b[i] != '/'
    ensures PieceStart(a + b) == |a|
    decreases |b|
  {
    if b == [] {
      assert a + b == a;
    } else {
      assert (a + b)[..|a + b| - 1] == a + b[..|b| - 1];
      PieceStartOf(a, b[..|b| - 1]);
    }
  }

  /** The suffix of `stem.ext`, `ext` free of dots, is `.ext`. */
  lemma {:induction false} SuffixOf(stem: string, ext: string)
    requires stem != []
    requires ext != [] && forall i :: 0 <= i < |ext| ==> ext[i] != '.'
    ensures Suffix(stem + ("." + ext)) == "." + ext
  {
    var name := stem + ("." + ext);
    assert name[|stem|] == '.';
    assert forall i :: |stem| < i < |name| ==> name[i] == ext[i - |stem| - 1];
    assert LastDot(name) == |stem|;
  }

  /** Lower-casing keeps the dot in front. */
  lemma {:induction false} LowerDotted(ext: string)
    ensures Lower("." + ext) == "." + Lower(ext)
  {
    assert forall i :: 1 <= i < |"." + ext| ==> ("." + ext)[i] == ext[i - 1];
  }

  /** A file `dir/stem.ext` counts as an image exactly when `ext` is `jpg` in
      any case: `.png` and `.jpeg` files never do. */
  lemma {:induction false} IsImageOf(dir: string, stem: string, ext: string, isFile: bool)
    requires stem != [] && forall i :: 0 <= i < |stem| ==> stem[i] != '/'
    requires ext != [] && forall i :: 0 <= i < |ext| ==> ext[i] != '/' && ext[i] != '.'
    ensures IsImage((dir + "/") + (stem + ("." + ext)), isFile) <==> isFile && Lower(ext) == "jpg"
  {
    var path := (dir + "/") + (stem + ("." + ext));
    var l := Lower(ext);
    assert IsImage(path, isFile) == (isFile && "." + l == ".jpg") by {
      LowerSuffixOf(dir, stem, ext);
      IsImageOnlyJpg(path, isFile);
    }
    assert ("." + l == ".jpg") == (l == "jpg") by {
      DotCancel(l, "jpg");
      assert ".jpg" == "." + "jpg";
    }
  }

  /** The lower-cased suffix of `dir/stem.ext` is `.ext` lower-cased. */
  lemma {:induction false} LowerSuffixOf(dir: string, stem: string, ext: string)
    requires stem != [] && forall i :: 0 <= i < |stem| ==> stem[i] != '/'
    requires ext != [] && forall i :: 0 <= i < |ext| ==> ext[i] != '/' && ext[i] != '.'
    ensures Lower(Suffix(Name((dir + "/") + (stem + ("." + ext))))) == "." + Lower(ext)
  {
    NameOf(dir, stem, ext);
    SuffixOf(stem, ext);
    LowerDotted(ext);
  }

  /** The name of `dir/stem.ext` is `stem.ext`. */
  lemma {:induction false} NameOf(dir: string, stem: string, ext: string)
    requires stem != [] && forall i :: 0 <= i < |stem| ==> stem[i] != '/'
    requires ext != [] && forall i :: 0 <= i < |ext| ==> ext[i] != '/'
    ensures Name((dir + "/") + (stem + ("." + ext))) == stem + ("." + ext)
  {
    var name := stem + ("." + ext);
    assert forall i :: 0 <= i < |name| ==> name[i] != '/' by {
      forall i | 0 <= i < |name|
        ensures name[i] != '/'
      {
        if i < |stem| { assert name[i] == stem[i]; }
        else if i > |stem| { assert name[i] == ext[i - |stem| - 1]; }
      }
    }
    PieceStartOf(dir + "/", name);
    var path := (dir + "/") + name;
    assert path[|dir + "/"|..] == name;
  }

  /** The suffixes evidently meant: all three with their dot. */
  const IntendedSuffixes: seq<string> := [".jpg", ".jpeg", ".png"]

  /** `is_image` with the intended suffixes. */
  predicate IsImageIntended(path: string, isFile: bool) {
    isFile && Lower(Suffix(Name(path))) in IntendedSuffixes
  }

  /** With the intended suffixes a file `dir/stem.ext` is an image exactly
      when `ext` is `jpg`, `jpeg` or `png` in any case. */
  lemma {:induction false} IsImageIntendedOf(dir: string, stem: string, ext: string, isFile: bool)
    requires stem != [] && forall i :: 0 <= i < |stem| ==> stem[i] != '/'
    requires ext != [] && forall i :: 0 <= i < |ext| ==> ext[i] != '/' && ext[i] != '.'
    ensures IsImageIntended((dir + "/") + (stem + ("." + ext)), isFile) <==>
      isFile && (Lower(ext) == "jpg" || Lower(ext) == "jpeg" || Lower(ext) == "png")
  {
    var path := (dir + "/") + (stem + ("." + ext));
    var l := Lower(ext);
    assert IsImageIntended(path, isFile) == (isFile && "." + l in IntendedSuffixes) by {
      LowerSuffixOf(dir, stem, ext);
    }
    IntendedDotted(l);
  }

  /** A dotted suffix is listed exactly when the part after the dot is one
      of the three. */
  lemma {:induction false} IntendedDotted(l: string)
    ensures "." + l in IntendedSuffixes <==> l == "jpg" || l == "jpeg" || l == "png"
  {
    var d := "." + l;
    assert (d in IntendedSuffixes) == (d == ".jpg" || d == ".jpeg" || d == ".png");
    assert (d == ".jpg") == (l == "jpg") by {
      DotCancel(l, "jpg");
      assert ".jpg" == "." + "jpg";
    }
    assert (d == ".jpeg") == (l == "jpeg") by {
      DotCancel(l, "jpeg");
      assert ".jpeg" == "." + "jpeg";
    }
    assert (d == ".png") == (l == "png") by {
      DotCancel(l, "png");
      assert ".png" == "." + "png";
    }
  }

  /** A leading dot can be cancelled. */
  lemma {:induction false} DotCancel(a: string, b: string)
    ensures "." + a == "." + b <==> a == b
  {
    if "." + a == "." + b {
      assert a == ("." + a)[1..];
      assert b == ("." + b)[1..];
    }
  }

  /** As written, a `.png` file is never an image; with the intended
      suffixes it is. */
  lemma {:induction false} IsImageMissesPng(dir: string, stem: string)
    requires stem != [] && forall i :: 0 <= i < |stem| ==> stem[i] != '/'
    ensures !IsImage((dir + "/") + (stem + ".png"), true)
    ensures IsImageIntended((dir + "/") + (stem + ".png"), true)
  {
    assert ".png" == "." + "png";
    assert Lower("png") == "png" by {
      var p := Lower("png");
      assert p[0] == 'p' && p[1] == 'n' && p[2] == 'g';
    }
    assert forall i :: 0 <= i < |"png"| ==> "png"[i] != '/' && "png"[i] != '.';
    IsImageOf(dir, stem, "png", true);
    IsImageIntendedOf(dir, stem, "png", true);
  }

  /** As written, a `.JPEG` file is never an image; with the intended
      suffixes it is. */
  lemma {:induction false} IsImageMissesJpeg(dir: string, stem: string)
    requires stem != [] && forall i :: 0 <= i < |stem| ==> stem[i] != '/'
    ensures !IsImage((dir + "/") + (stem + ".JPEG"), true)
    ensures IsImageIntended((dir + "/") + (stem + ".JPEG"), true)
  {
    assert ".JPEG" == "." + "JPEG";
    assert Lower("JPEG") == "jpeg" by {
      var e := Lower("JPEG");
      assert e[0] == 'j' && e[1] == 'p' && e[2] == 'e' && e[3] == 'g';
    }
    assert forall i :: 0 <= i < |"JPEG"| ==> "JPEG"[i] != '/' && "JPEG"[i] != '.';
    IsImageOf(dir, stem, "JPEG", true);
    IsImageIntendedOf(dir, stem, "JPEG", true);
  }
}
