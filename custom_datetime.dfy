/** The project's own date and datetime classes: the standard ones, printed
    day first ("dd.mm.yyyy" and "dd.mm.yyyy hh:mm:ss"). */
module CustomDatetime {
  import opened Text

  predicate IsLeap(year: int)
  {
    year % 4 == 0 && (year % 100 != 0 || year % 400 == 0)
  }

  /** The number of days in a month of the proleptic Gregorian calendar. */
  function DaysInMonth(year: int, month: int): (n: int)
    requires 1 <= month <= 12
    ensures 28 <= n <= 31
    ensures n == 29 <==> month == 2 && IsLeap(year)
  {
    if month == 2 then (if IsLeap(year) then 29 else 28)
    else if month == 4 || month == 6 || month == 9 || month == 11 then 30
    else 31
  }

  /** What the date constructor accepts: years 1 to 9999 and a day that
      exists in its month. */
  predicate ValidDate(year: int, month: int, day: int)
  {
    1 <= year <= 9999 && 1 <= month <= 12 && 1 <= day <= DaysInMonth(year, month)
  }

  /** What the datetime constructor accepts (microseconds are always 0
      here and are not modelled). */
  predicate ValidDateTime(year: int, month: int, day: int, hour: int, minute: int, second: int)
  {
    ValidDate(year, month, day) && 0 <= hour < 24 && 0 <= minute < 60 && 0 <= second < 60
  }

  datatype Date = Date(year: int, month: int, day: int)

  datatype DateTime = DateTime(year: int, month: int, day: int, hour: int, minute: int, second: int)

  /** A date object: one that construction let through. */
  type CDate = d: Date | ValidDate(d.year, d.month, d.day) witness Date(1, 1, 1)

  /** A datetime object. */
  type CDateTime = t: DateTime | ValidDateTime(t.year, t.month, t.day, t.hour, t.minute, t.second)
    witness DateTime(1, 1, 1, 0, 0, 0)

  /** date.__str__: "%02d.%02d.%04d" % (day, month, year). */
  function DateStr(d: CDate): (s: string)
    ensures |s| == 10
  {
    DateWidths(d.year, d.month, d.day);
    PadZeros(d.day, 2) + "." + PadZeros(d.month, 2) + "." + PadZeros(d.year, 4)
  }

  /** datetime.__str__: "%02d.%02d.%04d %02d:%02d:%02d". */
  function DateTimeStr(t: CDateTime): (s: string)
    ensures |s| == 19
  {
    DateWidths(t.year, t.month, t.day);
    PadWidth(t.hour, 2);
    PadWidth(t.minute, 2);
    PadWidth(t.second, 2);
    PadZeros(t.day, 2) + "." + PadZeros(t.month, 2) + "." + PadZeros(t.year, 4) + " " +
    PadZeros(t.hour, 2) + ":" + PadZeros(t.minute, 2) + ":" + PadZeros(t.second, 2)
  }

  /** datetime.date(): the calendar day of a datetime, as the custom date
      class. */
  function DateOf(t: CDateTime): (d: CDate)
    ensures d.year == t.year && d.month == t.month && d.day == t.day
  {
    Date(t.year, t.month, t.day)
  }

  /** Every field of a valid date prints at its fixed width. */
  lemma DateWidths(year: int, month: int, day: int)
    requires ValidDate(year, month, day)
    ensures |PadZeros(day, 2)| == 2 && |PadZeros(month, 2)| == 2 && |PadZeros(year, 4)| == 4
  {
    PadWidth(day, 2);
    PadWidth(month, 2);
    PadWidth(year, 4);
  }

  /** The printed date is ten characters, dots at 2 and 5, and its three
      digit groups read back as the day, the month and the year. */
  lemma DateStrFields(d: CDate)
    ensures var s := DateStr(d);
      |s| == 10 && s[2] == '.' && s[5] == '.' &&
      AllDigits(s[..2]) && AllDigits(s[3..5]) && AllDigits(s[6..]) &&
      ParseDigits(s[..2]) == d.day && ParseDigits(s[3..5]) == d.month && ParseDigits(s[6..]) == d.year
  {
    var s := DateStr(d);
    DateWidths(d.year, d.month, d.day);
    assert s[..2] == PadZeros(d.day, 2);
    assert s[3..5] == PadZeros(d.month, 2);
    assert s[6..] == PadZeros(d.year, 4);
    ParsePadZeros(d.day, 2);
    ParsePadZeros(d.month, 2);
    ParsePadZeros(d.year, 4);
  }

  /** The printed datetime is nineteen characters with its separators in
      place, and its time groups read back as the hour, minute and second. */
  lemma DateTimeStrFields(t: CDateTime)
    ensures var s := DateTimeStr(t);
      |s| == 19 && s[10] == ' ' && s[13] == ':' && s[16] == ':' &&
      AllDigits(s[11..13]) && AllDigits(s[14..16]) && AllDigits(s[17..]) &&
      ParseDigits(s[11..13]) == t.hour && ParseDigits(s[14..16]) == t.minute && ParseDigits(s[17..]) == t.second
  {
    var s := DateTimeStr(t);
    DateWidths(t.year, t.month, t.day);
    PadWidth(t.hour, 2);
    PadWidth(t.minute, 2);
    PadWidth(t.second, 2);
    assert s[11..13] == PadZeros(t.hour, 2);
    assert s[14..16] == PadZeros(t.minute, 2);
    assert s[17..] == PadZeros(t.second, 2);
    ParsePadZeros(t.hour, 2);
    ParsePadZeros(t.minute, 2);
    ParsePadZeros(t.second, 2);
  }

  /** A datetime prints its date() first: the two formats agree on the
      first ten characters. */
  lemma DateOfPrintsPrefix(t: CDateTime)
    ensures DateStr(DateOf(t)) == DateTimeStr(t)[..10]
  {
    DateWidths(t.year, t.month, t.day);
    var s := DateTimeStr(t);
    assert s == DateStr(DateOf(t)) + " " + PadZeros(t.hour, 2) + ":" + PadZeros(t.minute, 2) + ":" + PadZeros(t.second, 2);
  }
}
