/** Dates stored as integers: yyyymmdd followed by hhmmss, built from the
    decimal text of the fields and read back by slicing that text. */
module DatetimeUtil {
  import opened Outcomes
  import opened Text
  import opened CustomDatetime

  /** A wx.DateTime: GetMonth() counts months from 0. */
  datatype WxDate = WxDate(year: nat, month0: nat, day: nat)

  /** What encode_date may be handed. A date string parsed by dateutil is
      not part of this model. */
  datatype DateArg =
    | WxValue(wx: WxDate)
    | DateValue(date: CDate)
    | DateTimeValue(dt: CDateTime)
    | OtherValue

  datatype DateError =
    | UnsupportedDateClass   // encode_date of any other class
    | NotAnInteger           // int() of an empty slice of a too-short number
    | OutOfRange             // the date or datetime constructor refused the fields

  /** str(year) + str(month).zfill(2) + str(day).zfill(2). */
  function DateText(year: nat, month: nat, day: nat): (s: string)
    ensures AllDigits(s) && |s| >= 5
  {
    Show(year) + PadZeros(month, 2) + PadZeros(day, 2)
  }

  /** The year, month (counted from 1) and day encode_date reads. */
  function DateFields(arg: DateArg): Option<(nat, nat, nat)>
  {
    match arg
    case WxValue(w) => Some((w.year, w.month0 + 1, w.day))
    case DateValue(d) => Some((d.year, d.month, d.day))
    case DateTimeValue(t) => Some((t.year, t.month, t.day))
    case OtherValue => None
  }

  /** encode_date: the date's digits followed by six zeros, read as one
      integer. */
  function EncodeDate(arg: DateArg): (r: Result<nat, DateError>)
    ensures r.Err? <==> arg.OtherValue?
    ensures r.Ok? ==> r.value % 1000000 == 0
  {
    match DateFields(arg)
    case None => Err(UnsupportedDateClass)
    case Some((y, m, d)) =>
      AppendZeros(DateText(y, m, d));
      Ok(ParseDigits(DateText(y, m, d) + "000000"))
  }

  /** The text encode_datetime reads as an integer. */
  function DateTimeText(date: WxDate, hour: nat, minute: nat, seconds: nat): (s: string)
    ensures AllDigits(s)
  {
    DateText(date.year, date.month0 + 1, date.day) + PadZeros(hour, 2) + PadZeros(minute, 2) + PadZeros(seconds, 2)
  }

  /** encode_datetime of a wx.DateTime and a time of day. */
  function EncodeDatetime(date: WxDate, hour: nat, minute: nat, seconds: nat): (r: nat)
    ensures hour < 100 && minute < 100 && seconds < 100 ==>
      r / 1000000 == ParseDigits(DateText(date.year, date.month0 + 1, date.day)) &&
      r % 1000000 == hour * 10000 + minute * 100 + seconds
  {
    TimeLayout(date, hour, minute, seconds);
    ParseDigits(DateTimeText(date, hour, minute, seconds))
  }

  /** s[i:j] with Python's clamping of both ends. */
  function PySlice(s: string, i: nat, j: nat): (r: string)
    requires i <= j
    ensures |r| <= |s|
  {
    var lo := if i < |s| then i else |s|;
    var hi := if j < |s| then j else |s|;
    s[lo..hi]
  }

  /** decode_date: characters 0-4, 4-6 and 6-8 of str(n) as year, month
      and day. */
  function DecodeDate(n: int): (r: Result<CDate, DateError>)
    ensures n < 0 ==> r.Err?
  {
    NegativeYear(n);
    var s := IntToStr(n);
    var y, m, d := PyInt(PySlice(s, 0, 4)), PyInt(PySlice(s, 4, 6)), PyInt(PySlice(s, 6, 8));
    if y.None? || m.None? || d.None? then Err(NotAnInteger)
    else if ValidDate(y.value, m.value, d.value) then Ok(Date(y.value, m.value, d.value))
    else Err(OutOfRange)
  }

  /** decode_datetime: additionally characters 8-10, 10-12 and 12-14 as
      hour, minute and second. */
  function DecodeDatetime(n: int): (r: Result<CDateTime, DateError>)
    ensures n < 0 ==> r.Err?
  {
    NegativeYear(n);
    var s := IntToStr(n);
    var y, mo, d := PyInt(PySlice(s, 0, 4)), PyInt(PySlice(s, 4, 6)), PyInt(PySlice(s, 6, 8));
    var h, mi, se := PyInt(PySlice(s, 8, 10)), PyInt(PySlice(s, 10, 12)), PyInt(PySlice(s, 12, 14));
    if y.None? || mo.None? || d.None? || h.None? || mi.None? || se.None? then Err(NotAnInteger)
    else if ValidDateTime(y.value, mo.value, d.value, h.value, mi.value, se.value) then
      Ok(DateTime(y.value, mo.value, d.value, h.value, mi.value, se.value))
    else Err(OutOfRange)
  }

  // ------------------------------------------------------------- layout

  /** Appending a two-digit group shifts the value two places. */
  lemma AppendTwo(a: string, b: string)
    requires AllDigits(a) && AllDigits(b) && |b| == 2
    ensures AllDigits(a + b) && ParseDigits(a + b) == ParseDigits(a) * 100 + ParseDigits(b)
  {
    ParseAppend(a, b);
    assert Pow10(2) == 100;
  }

  /** The date digits, then the three two-digit time groups: the time sits
      in the last six decimal places, the date above them. */
  lemma TimeLayout(date: WxDate, hour: nat, minute: nat, seconds: nat)
    ensures hour < 100 && minute < 100 && seconds < 100 ==>
      var r := ParseDigits(DateTimeText(date, hour, minute, seconds));
      r / 1000000 == ParseDigits(DateText(date.year, date.month0 + 1, date.day)) &&
      r % 1000000 == hour * 10000 + minute * 100 + seconds
  {
    if hour < 100 && minute < 100 && seconds < 100 {
      var d := DateText(date.year, date.month0 + 1, date.day);
      var h, mi, se := PadZeros(hour, 2), PadZeros(minute, 2), PadZeros(seconds, 2);
      PadWidth(hour, 2);
      PadWidth(minute, 2);
      PadWidth(seconds, 2);
      ParsePadZeros(hour, 2);
      ParsePadZeros(minute, 2);
      ParsePadZeros(seconds, 2);
      AppendTwo(d, h);
      AppendTwo(d + h, mi);
      AppendTwo(d + h + mi, se);
      var a := ParseDigits(d);
      assert ParseDigits(DateTimeText(date, hour, minute, seconds)) ==
        a * 1000000 + (hour * 10000 + minute * 100 + seconds);
    }
  }

  /** str() of a negative code starts with "-", so the year slice reads as
      no integer or as one below 1. */
  lemma NegativeYear(n: int)
    ensures n < 0 ==> var y := PyInt(PySlice(IntToStr(n), 0, 4)); y.None? || y.value <= 0
  {
    if n < 0 {
      var t := PySlice(IntToStr(n), 0, 4);
      assert t[0] == '-';
      assert TrimLeft(t, Whitespace) == t;
      var r := Strip(t);
      assert r == TrimRight(t, Whitespace);
      if r != [] {
        assert r[0] == '-';
      }
    }
  }

  /** Appending six zeros shifts the value six places. */
  lemma AppendZeros(a: string)
    requires AllDigits(a)
    ensures AllDigits(a + "000000") && ParseDigits(a + "000000") == ParseDigits(a) * 1000000
  {
    ZerosParse("000000");
    ParseAppend(a, "000000");
    assert Pow10(6) == 1000000;
  }

  /** With month and day below 100, the encoded value is year * 10^10 +
      month * 10^8 + day * 10^6. */
  lemma EncodedValue(year: nat, month: nat, day: nat)
    requires month < 100 && day < 100
    ensures ParseDigits(DateText(year, month, day) + "000000") ==
      year * 10000000000 + month * 100000000 + day * 1000000
  {
    var y, m, d := Show(year), PadZeros(month, 2), PadZeros(day, 2);
    PadWidth(month, 2);
    PadWidth(day, 2);
    var ym := ParseDigits(y + m);
    assert ym == year * 100 + month by {
      ParseShow(year);
      ParsePadZeros(month, 2);
      AppendTwo(y, m);
    }
    var ymd := ParseDigits(y + m + d);
    assert ymd == ym * 100 + day by {
      ParsePadZeros(day, 2);
      AppendTwo(y + m, d);
    }
    assert y + m + d == DateText(year, month, day);
    AppendZeros(y + m + d);
  }

  /** encode_date of a date object: the calendar fields in their decimal
      places, zeros for the time of day. */
  lemma EncodeDateLayout(arg: DateArg)
    requires arg.DateValue? || arg.DateTimeValue?
    ensures EncodeDate(arg).Ok?
    ensures var (y, m, d) := DateFields(arg).value;
      EncodeDate(arg).value == y * 10000000000 + m * 100000000 + d * 1000000 &&
      EncodeDate(arg).value % 1000000 == 0
  {
    var (y, m, d) := DateFields(arg).value;
    EncodedValue(y, m, d);
    NoTimeDigits(y, m, d);
  }

  lemma NoTimeDigits(y: nat, m: nat, d: nat)
    ensures (y * 10000000000 + m * 100000000 + d * 1000000) % 1000000 == 0
  {
    var k := y * 10000 + m * 100 + d;
    assert y * 10000000000 + m * 100000000 + d * 1000000 == k * 1000000;
  }

  /** wx counts months from 0, the date classes from 1: the same calendar
      day encodes the same either way. */
  lemma WxMonthShift(d: CDate)
    ensures EncodeDate(WxValue(WxDate(d.year, d.month - 1, d.day))) == EncodeDate(DateValue(d))
  {
  }

  /** Any other class is refused. */
  lemma EncodeUnsupported()
    ensures EncodeDate(OtherValue) == Err(UnsupportedDateClass)
  {
  }

  /** encode_date of a wx date is encode_datetime of it at midnight. */
  lemma EncodeDateIsMidnight(w: WxDate)
    ensures EncodeDate(WxValue(w)) == Ok(EncodeDatetime(w, 0, 0, 0))
  {
    var p := PadZeros(0, 2);
    assert p == "00";
    assert DateTimeText(w, 0, 0, 0) == DateText(w.year, w.month0 + 1, w.day) + "000000";
  }

  // --------------------------------------------------------- round trips

  /** A number printed as d0 + rest, whose first piece has width k, yields d0
      to int(str(n)[i:i+k]). */
  lemma ReadPiece(s: string, i: nat, k: nat, v: nat, p: string)
    requires AllDigits(s) && k >= 1 && i + k <= |s| && s[i..i + k] == p && ParseDigits(p) == v
    ensures PyInt(PySlice(s, i, i + k)) == Some(v)
  {
    assert PySlice(s, i, i + k) == p;
    PyIntDigits(p);
  }

  /** A two-digit field at position i reads back as its value. */
  lemma ReadPadded(s: string, i: nat, v: nat)
    requires AllDigits(s) && v < 100 && i + 2 <= |s| && s[i..i + 2] == PadZeros(v, 2)
    ensures PyInt(PySlice(s, i, i + 2)) == Some(v)
  {
    PadWidth(v, 2);
    ParsePadZeros(v, 2);
    ReadPiece(s, i, 2, v, PadZeros(v, 2));
  }

  /** The stored text of a four-digit year reads back unchanged. */
  lemma EncodedText(year: nat, month: nat, day: nat, rest: string)
    requires 1000 <= year <= 9999 && month < 100 && day < 100 && AllDigits(rest)
    ensures var s := DateText(year, month, day) + rest;
      AllDigits(s) && IntToStr(ParseDigits(s)) == s &&
      PyInt(PySlice(s, 0, 4)) == Some(year) &&
      PyInt(PySlice(s, 4, 6)) == Some(month) &&
      PyInt(PySlice(s, 6, 8)) == Some(day)
  {
    var s := DateText(year, month, day) + rest;
    assert IntToStr(ParseDigits(s)) == s by {
      assert s[0] == Show(year)[0];
      ShowParse(s);
    }
    DatePieces(year, month, day, rest);
  }

  /** The year, month and day groups of the stored text. */
  lemma DatePieces(year: nat, month: nat, day: nat, rest: string)
    requires 1000 <= year <= 9999 && month < 100 && day < 100 && AllDigits(rest)
    ensures var s := DateText(year, month, day) + rest;
      PyInt(PySlice(s, 0, 4)) == Some(year) &&
      PyInt(PySlice(s, 4, 6)) == Some(month) &&
      PyInt(PySlice(s, 6, 8)) == Some(day)
  {
    var y, m, d := Show(year), PadZeros(month, 2), PadZeros(day, 2);
    var s := DateText(year, month, day) + rest;
    ShowLength(year, 4);
    PadWidth(month, 2);
    PadWidth(day, 2);
    assert s == y + m + d + rest;
    assert s[..4] == y && s[4..6] == m && s[6..8] == d;
    ParseShow(year);
    ReadPiece(s, 0, 4, year, y);
    ReadPadded(s, 4, month);
    ReadPadded(s, 6, day);
  }

  /** decode_date undoes encode_date for every date with a four-digit
      year. */
  lemma DateRoundTrip(d: CDate)
    requires d.year >= 1000
    ensures EncodeDate(DateValue(d)).Ok?
    ensures DecodeDate(EncodeDate(DateValue(d)).value) == Ok(d)
  {
    ZerosParse("000000");
    EncodedText(d.year, d.month, d.day, "000000");
  }

  /** A datetime object encodes its date(): decoding gives that date. */
  lemma DateTimeEncodesDate(t: CDateTime)
    requires t.year >= 1000
    ensures EncodeDate(DateTimeValue(t)) == EncodeDate(DateValue(DateOf(t)))
    ensures DecodeDate(EncodeDate(DateTimeValue(t)).value) == Ok(DateOf(t))
  {
    DateRoundTrip(DateOf(t));
  }

  /** The three two-digit time groups after an eight-digit date read back
      as the hour, minute and second. */
  lemma TimePieces(date: string, hour: nat, minute: nat, seconds: nat)
    requires AllDigits(date) && |date| == 8 && hour < 100 && minute < 100 && seconds < 100
    ensures var s := date + PadZeros(hour, 2) + PadZeros(minute, 2) + PadZeros(seconds, 2);
      AllDigits(s) &&
      PyInt(PySlice(s, 8, 10)) == Some(hour) &&
      PyInt(PySlice(s, 10, 12)) == Some(minute) &&
      PyInt(PySlice(s, 12, 14)) == Some(seconds)
  {
    var h, mi, se := PadZeros(hour, 2), PadZeros(minute, 2), PadZeros(seconds, 2);
    var s := date + h + mi + se;
    PadWidth(hour, 2);
    PadWidth(minute, 2);
    PadWidth(seconds, 2);
    assert s[8..10] == h && s[10..12] == mi && s[12..14] == se;
    ReadPadded(s, 8, hour);
    ReadPadded(s, 10, minute);
    ReadPadded(s, 12, seconds);
  }

  /** decode_datetime undoes encode_datetime for every valid moment with a
      four-digit year. */
  lemma DatetimeRoundTrip(w: WxDate, hour: nat, minute: nat, seconds: nat)
    requires w.year >= 1000 && ValidDateTime(w.year, w.month0 + 1, w.day, hour, minute, seconds)
    ensures DecodeDatetime(EncodeDatetime(w, hour, minute, seconds)) ==
      Ok(DateTime(w.year, w.month0 + 1, w.day, hour, minute, seconds))
  {
    var date := DateText(w.year, w.month0 + 1, w.day);
    var rest := PadZeros(hour, 2) + PadZeros(minute, 2) + PadZeros(seconds, 2);
    var s := DateTimeText(w, hour, minute, seconds);
    assert s == date + rest;
    assert |date| == 8 by {
      ShowLength(w.year, 4);
      PadWidth(w.month0 + 1, 2);
      PadWidth(w.day, 2);
    }
    EncodedText(w.year, w.month0 + 1, w.day, rest);
    TimePieces(date, hour, minute, seconds);
  }

  /** A year below 1000 prints in fewer than four digits, so the fixed
      slices shift: 1 January 999 comes back as 10 October 9990. */
  lemma ShortYearMisread()
    ensures EncodeDate(DateValue(Date(999, 1, 1))) == Ok(9990101000000)
    ensures DecodeDate(9990101000000) == Ok(Date(9990, 10, 10))
  {
    ShortYearEncode();
    ShortYearDecode();
  }

  lemma ShortYearEncode()
    ensures EncodeDate(DateValue(Date(999, 1, 1))) == Ok(9990101000000)
  {
    EncodedValue(999, 1, 1);
  }

  lemma ShortYearText()
    ensures DateText(999, 1, 1) + "000000" == "9990101000000"
  {
    assert Show(999) == "999";
    assert PadZeros(1, 2) == "01";
  }

  /** The text of 999-01-01 is the text of 9990-10-10 with one zero fewer. */
  lemma ShortYearShift()
    ensures DateText(999, 1, 1) + "000000" == DateText(9990, 10, 10) + "00000"
  {
    ShortYearText();
    assert Show(9990) == "9990" && PadZeros(10, 2) == "10";
  }

  lemma ShortYearDecode()
    ensures DecodeDate(9990101000000) == Ok(Date(9990, 10, 10))
  {
    var b := DateText(9990, 10, 10) + "00000";
    ShortYearShift();
    EncodedValue(999, 1, 1);
    EncodedText(9990, 10, 10, "00000");
    DecodeText(9990101000000, b, 9990, 10, 10);
  }

  /** decode_date of a number whose text has the three fields in place. */
  lemma DecodeText(n: int, s: string, year: int, month: int, day: int)
    requires IntToStr(n) == s
    requires PyInt(PySlice(s, 0, 4)) == Some(year)
    requires PyInt(PySlice(s, 4, 6)) == Some(month)
    requires PyInt(PySlice(s, 6, 8)) == Some(day)
    ensures DecodeDate(n) == if ValidDate(year, month, day) then Ok(Date(year, month, day)) else Err(OutOfRange)
  {
  }
}
