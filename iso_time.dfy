/** `Date.prototype.toISOString` of the JavaScript runtime, following the date
    arithmetic of ECMA-262 (section 21.4.1: Day, DayFromYear, YearFromTime,
    MonthFromTime, DateFromTime, HourFromTime, ...) and its Date Time String
    Format `YYYY-MM-DDTHH:mm:ss.sssZ` (expanded years `±YYYYYY`). A time value
    is an integer number of milliseconds since 1970-01-01T00:00:00Z. */
module IsoTime {
  import opened MediaTypes
  import opened Text

  const MsPerSecond: int := 1000
  const MsPerMinute: int := 60000
  const MsPerHour: int := 3600000
  const MsPerDay: int := 86400000
  /** TimeClip: a Date whose time value exceeds this magnitude is invalid. */
  const MaxTimeValue: int := 8640000000000000

  // ---------------------------------------------------------------------------
  // Years

  predicate IsLeapYear(y: int) { y % 4 == 0 && (y % 100 != 0 || y % 400 == 0) }

  function DaysInYear(y: int): int { if IsLeapYear(y) then 366 else 365 }

  /** Day number of the first day of year `y`. */
  function DayFromYear(y: int): int
  {
    365 * (y - 1970) + (y - 1969) / 4 - (y - 1901) / 100 + (y - 1601) / 400
  }

  lemma DayFromYearStep(y: int)
    ensures DayFromYear(y + 1) == DayFromYear(y) + DaysInYear(y)
  {
    StepOf4(y);
    StepOf100(y);
    StepOf400(y);
    DivisibilityChain(y);
    assert DayFromYear(y + 1) - DayFromYear(y)
        == 365 + ((y - 1968) / 4 - (y - 1969) / 4) - ((y - 1900) / 100 - (y - 1901) / 100)
           + ((y - 1600) / 400 - (y - 1601) / 400);
  }

  lemma DivisibilityChain(y: int)
    ensures y % 400 == 0 ==> y % 100 == 0
    ensures y % 100 == 0 ==> y % 4 == 0
  {
    if y % 400 == 0 {
      CenturyOf400(y);
    }
    if y % 100 == 0 {
      QuarterOf100(y);
    }
  }

  lemma CenturyOf400(y: int)
    requires y % 400 == 0
    ensures y % 100 == 0
  {
    var k := y / 400;
    assert y == 100 * (4 * k);
  }

  lemma QuarterOf100(y: int)
    requires y % 100 == 0
    ensures y % 4 == 0
  {
    var k := y / 100;
    assert y == 4 * (25 * k);
  }

  lemma StepOf4(y: int)
    ensures (y - 1968) / 4 - (y - 1969) / 4 == if y % 4 == 0 then 1 else 0
  {
  }

  lemma StepOf100(y: int)
    ensures (y - 1900) / 100 - (y - 1901) / 100 == if y % 100 == 0 then 1 else 0
  {
  }

  lemma StepOf400(y: int)
    ensures (y - 1600) / 400 - (y - 1601) / 400 == if y % 400 == 0 then 1 else 0
  {
  }

  /** Years are strictly increasing in their first day. */
  lemma {:induction false} DayFromYearMonotone(a: int, b: int)
    requires a < b
    ensures DayFromYear(a) < DayFromYear(b)
    decreases b - a
  {
    DayFromYearStep(a);
    if a + 1 < b {
      DayFromYearMonotone(a + 1, b);
    }
  }

  /** Every 400 years from 1970 span exactly 146097 days. */
  lemma DayFromYearCycle(q: int)
    ensures DayFromYear(1970 + 400 * q) == 146097 * q
  {
    assert (1 + 400 * q) / 4 == 100 * q;
    assert (69 + 400 * q) / 100 == 4 * q;
    assert (369 + 400 * q) / 400 == q;
  }

  /** The year that holds day `d`, searching upward from a year that starts no
      later than `d`. */
  function FindYear(y: int, d: int): (r: int)
    requires DayFromYear(y) <= d
    ensures y <= r && DayFromYear(r) <= d < DayFromYear(r + 1)
    decreases d - DayFromYear(y)
  {
    DayFromYearStep(y);
    if d < DayFromYear(y + 1) then y else FindYear(y + 1, d)
  }

  /** YearFromTime for day `d`: the largest year whose first day is not after `d`. */
  function YearFromDay(d: int): (y: int)
    ensures DayFromYear(y) <= d < DayFromYear(y + 1)
  {
    DayFromYearCycle(d / 146097);
    FindYear(1970 + 400 * (d / 146097), d)
  }

  /** The characterisation of ECMA-262: no later year starts on or before `d`. */
  lemma YearFromDayIsLargest(d: int, y: int)
    requires DayFromYear(y) <= d
    ensures y <= YearFromDay(d)
  {
    var r := YearFromDay(d);
    if r < y {
      if r + 1 < y { DayFromYearMonotone(r + 1, y); }
    }
  }

  lemma YearFromDayRange(d: int)
    requires -100000000 <= d <= 100000000
    ensures -1000000 < YearFromDay(d) < 1000000
  {
    var q := d / 146097;
    var y := YearFromDay(d);
    DayFromYearCycle(q);
    DayFromYearCycle(q + 1);
    assert 1970 + 400 * (q + 1) == 1970 + 400 * q + 400;
    if y >= 1970 + 400 * q + 400 {
      if y > 1970 + 400 * q + 400 { DayFromYearMonotone(1970 + 400 * q + 400, y); }
      assert false;
    }
    if y < 1970 + 400 * q {
      DayFromYearMonotone(y + 1, 1970 + 400 * q + 1);
      DayFromYearStep(1970 + 400 * q);
      if y + 1 < 1970 + 400 * q { DayFromYearMonotone(y + 1, 1970 + 400 * q); }
      assert false;
    }
  }

  // ---------------------------------------------------------------------------
  // Months and dates

  /** Number of days of the year before month `m` (0-based, 0..12). */
  function MonthStart(m: nat, leap: int): int
    requires m <= 12
  {
    var base :=
      if m == 0 then 0 else if m == 1 then 31 else if m == 2 then 59
      else if m == 3 then 90 else if m == 4 then 120 else if m == 5 then 151
      else if m == 6 then 181 else if m == 7 then 212 else if m == 8 then 243
      else if m == 9 then 273 else if m == 10 then 304 else if m == 11 then 334
      else 365;
    if m >= 2 then base + leap else base
  }

  function Leap(y: int): int { DaysInYear(y) - 365 }

  /** MonthFromTime (0-based) for day `dwy` of a year. */
  function MonthFromDayWithinYear(dwy: int, leap: int): (m: nat)
    requires leap == 0 || leap == 1
    requires 0 <= dwy < 365 + leap
    ensures m < 12 && MonthStart(m, leap) <= dwy < MonthStart(m + 1, leap)
  {
    if dwy < 31 then 0
    else if dwy < 59 + leap then 1
    else if dwy < 90 + leap then 2
    else if dwy < 120 + leap then 3
    else if dwy < 151 + leap then 4
    else if dwy < 181 + leap then 5
    else if dwy < 212 + leap then 6
    else if dwy < 243 + leap then 7
    else if dwy < 273 + leap then 8
    else if dwy < 304 + leap then 9
    else if dwy < 334 + leap then 10
    else 11
  }

  /** Days in month `month` (1-based) of year `y`. */
  function DaysInMonth(y: int, month: nat): int
    requires 1 <= month <= 12
  {
    MonthStart(month, Leap(y)) - MonthStart(month - 1, Leap(y))
  }

  // ---------------------------------------------------------------------------
  // Broken-down time

  /** The fields a time value is written with (month and day 1-based). */
  datatype DateTime = DateTime(year: int, month: nat, day: nat, hour: nat, minute: nat, second: nat, millisecond: nat)

  predicate ValidDateTime(f: DateTime)
  {
    && -1000000 < f.year < 1000000
    && 1 <= f.month <= 12
    && 1 <= f.day <= DaysInMonth(f.year, f.month)
    && f.hour < 24 && f.minute < 60 && f.second < 60 && f.millisecond < 1000
  }

  /** The fields of time value `t` (YearFromTime, MonthFromTime + 1,
      DateFromTime, HourFromTime, MinFromTime, SecFromTime, msFromTime). */
  function FieldsOf(t: int): (f: DateTime)
    requires -MaxTimeValue <= t <= MaxTimeValue
    ensures ValidDateTime(f)
  {
    var day := t / MsPerDay;
    var y := YearFromDay(day);
    YearFromDayRange(day);
    DayFromYearStep(y);
    var leap := Leap(y);
    var dwy := day - DayFromYear(y);
    var m := MonthFromDayWithinYear(dwy, leap);
    DateTime(y, m + 1, dwy - MonthStart(m, leap) + 1,
             (t / MsPerHour) % 24, (t / MsPerMinute) % 60, (t / MsPerSecond) % 60, t % MsPerSecond)
  }

  /** MakeDate(MakeDay(year, month - 1, day), MakeTime(hour, minute, second, ms))
      for fields in range. */
  function TimeFromFields(f: DateTime): int
    requires ValidDateTime(f)
  {
    (DayFromYear(f.year) + MonthStart(f.month - 1, Leap(f.year)) + f.day - 1) * MsPerDay
    + f.hour * MsPerHour + f.minute * MsPerMinute + f.second * MsPerSecond + f.millisecond
  }

  lemma TimeOfDay(t: int)
    ensures ((t / MsPerHour) % 24) * MsPerHour + ((t / MsPerMinute) % 60) * MsPerMinute
            + ((t / MsPerSecond) % 60) * MsPerSecond + t % MsPerSecond
            == t - (t / MsPerDay) * MsPerDay
  {
    var s := t / 1000;
    var mi := t / 60000;
    var h := t / 3600000;
    assert t == s * 1000 + t % 1000;
    assert s == mi * 60 + s % 60 by { assert mi == s / 60; }
    assert mi == h * 60 + mi % 60 by { assert h == mi / 60; }
    assert h == (t / 86400000) * 24 + h % 24 by { assert t / 86400000 == h / 24; }
  }

  /** Breaking a time value into fields loses nothing. */
  lemma FieldsRoundTrip(t: int)
    requires -MaxTimeValue <= t <= MaxTimeValue
    ensures TimeFromFields(FieldsOf(t)) == t
  {
    TimeOfDay(t);
  }

  // ---------------------------------------------------------------------------
  // The string format

  function YearText(y: int): (s: string)
    requires -1000000 < y < 1000000
    ensures |s| == (if 0 <= y <= 9999 then 4 else 7)
  {
    if 0 <= y <= 9999 then FixedDigits(y, 4)
    else (if y < 0 then "-" else "+") + FixedDigits(if y < 0 then -y else y, 6)
  }

  /** `YYYY-MM-DDTHH:mm:ss`: the date and the time to the second. */
  function SecondsText(f: DateTime): string
    requires ValidDateTime(f)
  {
    YearText(f.year) + "-" + FixedDigits(f.month, 2) + "-" + FixedDigits(f.day, 2)
    + "T" + FixedDigits(f.hour, 2) + ":" + FixedDigits(f.minute, 2) + ":" + FixedDigits(f.second, 2)
  }

  /** `YYYY-MM-DDTHH:mm:ss.sssZ` */
  function IsoText(f: DateTime): string
    requires ValidDateTime(f)
  {
    SecondsText(f) + "." + FixedDigits(f.millisecond, 3) + "Z"
  }

  /** `Date.prototype.toISOString` of `new Date(t)`; `None` where it throws a
      RangeError because the time value is invalid. */
  function ToISOString(t: int): (r: Option<string>)
    ensures r.Some? <==> -MaxTimeValue <= t <= MaxTimeValue
  {
    if -MaxTimeValue <= t <= MaxTimeValue then Some(IsoText(FieldsOf(t))) else None
  }

  // ---------------------------------------------------------------------------
  // Reading the format back

  /** The number written with `w` digits at position `i` of `s`, if it is one. */
  function NumberField(s: string, i: nat, w: nat): Option<nat>
  {
    if i + w <= |s| && AllDigits(s[i..i + w]) then Some(DigitsValue(s[i..i + w])) else None
  }

  /** Width of the year field: 7 for the expanded form `±YYYYYY`, else 4. */
  function YearWidth(s: string): nat
  {
    if |s| > 0 && (s[0] == '+' || s[0] == '-') then 7 else 4
  }

  /** The year written at the start of `s` in a field of width `w`; `-000000`
      is not a year. */
  function ParseYear(s: string, w: nat): Option<int>
  {
    if w == 4 then
      match NumberField(s, 0, 4)
      case None => None
      case Some(v) => Some(v as int)
    else
      match NumberField(s, 1, 6)
      case None => None
      case Some(v) =>
        if s[0] == '-' then (if v == 0 then None else Some(-(v as int))) else Some(v as int)
  }

  /** What follows the seconds: `Z`, or `.sssZ`; the milliseconds it gives. */
  function ParseTail(tail: string): Option<nat>
  {
    if tail == "Z" then Some(0)
    else if |tail| == 5 && tail[0] == '.' && tail[4] == 'Z' then NumberField(tail, 1, 3)
    else None
  }

  predicate Separators(s: string, w: nat)
    requires w + 15 <= |s|
  {
    s[w] == '-' && s[w + 3] == '-' && s[w + 6] == 'T' && s[w + 9] == ':' && s[w + 12] == ':'
  }

  /** Reads `YYYY-MM-DDTHH:mm:ss` followed by `Z` or `.sssZ` (either year form),
      as a Date Time String Format parser does for UTC date-times. */
  function ParseDateTime(s: string): Option<DateTime>
  {
    var w := YearWidth(s);
    if |s| < w + 16 || !Separators(s, w) then None
    else
      var year := ParseYear(s, w);
      var month := NumberField(s, w + 1, 2);
      var day := NumberField(s, w + 4, 2);
      var hour := NumberField(s, w + 7, 2);
      var minute := NumberField(s, w + 10, 2);
      var second := NumberField(s, w + 13, 2);
      var ms := ParseTail(s[w + 15..]);
      if year.None? || month.None? || day.None? || hour.None? || minute.None? || second.None? || ms.None? then None
      else
        var f := DateTime(year.value, month.value, day.value, hour.value, minute.value, second.value, ms.value);
        if 1 <= f.month <= 12 && ValidDateTime(f) then Some(f) else None
  }

  lemma FieldAt(s: string, i: nat, n: nat, w: nat)
    requires n < Pow10(w) && i + w <= |s| && s[i..i + w] == FixedDigits(n, w)
    ensures NumberField(s, i, w) == Some(n)
  {
    FixedDigitsValue(n, w);
  }

  lemma YearTextValue(s: string, y: int)
    requires -1000000 < y < 1000000
    requires |YearText(y)| <= |s| && s[..|YearText(y)|] == YearText(y)
    ensures YearWidth(s) == |YearText(y)| && ParseYear(s, |YearText(y)|) == Some(y)
  {
    var t := YearText(y);
    if 0 <= y <= 9999 {
      FixedDigitsValue(y, 4);
      assert s[0..4] == t;
    } else {
      var a := if y < 0 then -y else y;
      FixedDigitsValue(a, 6);
      assert s[0] == t[0];
      assert s[1..7] == t[1..7] == FixedDigits(a, 6);
    }
  }

  /** Where each field sits in `YYYY-MM-DDTHH:mm:ss`. */
  lemma SecondsTextLayout(f: DateTime)
    requires ValidDateTime(f)
    ensures var a := SecondsText(f); var w := |YearText(f.year)|;
            && |a| == w + 15 && a[..w] == YearText(f.year)
            && Separators(a, w)
            && a[w + 1..w + 3] == FixedDigits(f.month, 2)
            && a[w + 4..w + 6] == FixedDigits(f.day, 2)
            && a[w + 7..w + 9] == FixedDigits(f.hour, 2)
            && a[w + 10..w + 12] == FixedDigits(f.minute, 2)
            && a[w + 13..w + 15] == FixedDigits(f.second, 2)
  {
    PiecesLayout(YearText(f.year), FixedDigits(f.month, 2), FixedDigits(f.day, 2),
                 FixedDigits(f.hour, 2), FixedDigits(f.minute, 2), FixedDigits(f.second, 2));
  }

  /** Where the pieces of `y-mo-dTh:mi:se` sit, for two-character fields. */
  lemma PiecesLayout(y: string, mo: string, d: string, h: string, mi: string, se: string)
    requires |mo| == 2 && |d| == 2 && |h| == 2 && |mi| == 2 && |se| == 2
    ensures var a := y + "-" + mo + "-" + d + "T" + h + ":" + mi + ":" + se; var w := |y|;
            && |a| == w + 15 && a[..w] == y
            && a[w] == '-' && a[w + 3] == '-' && a[w + 6] == 'T' && a[w + 9] == ':' && a[w + 12] == ':'
            && a[w + 1..w + 3] == mo && a[w + 4..w + 6] == d && a[w + 7..w + 9] == h
            && a[w + 10..w + 12] == mi && a[w + 13..w + 15] == se
  {
  }

  lemma ParseTailValue(f: DateTime, tail: string)
    requires ValidDateTime(f)
    requires tail == "Z" || tail == "." + FixedDigits(f.millisecond, 3) + "Z"
    ensures ParseTail(tail) == Some(if tail == "Z" then 0 else f.millisecond)
  {
    if tail != "Z" {
      assert tail[1..4] == FixedDigits(f.millisecond, 3);
      FieldAt(tail, 1, f.millisecond, 3);
    }
  }

  /** The text of valid fields reads back as those fields, with or without the
      milliseconds. */
  lemma ParseSecondsText(f: DateTime, tail: string)
    requires ValidDateTime(f)
    requires tail == "Z" || tail == "." + FixedDigits(f.millisecond, 3) + "Z"
    ensures ParseDateTime(SecondsText(f) + tail)
            == Some(if tail == "Z" then f.(millisecond := 0) else f)
  {
    var a := SecondsText(f);
    var s := a + tail;
    var w := |YearText(f.year)|;
    SecondsTextLayout(f);
    PrefixLayout(a, tail, w);
    YearTextValue(s, f.year);
    FieldAt(s, w + 1, f.month, 2);
    FieldAt(s, w + 4, f.day, 2);
    FieldAt(s, w + 7, f.hour, 2);
    FieldAt(s, w + 10, f.minute, 2);
    FieldAt(s, w + 13, f.second, 2);
    ParseTailValue(f, tail);
    ParseFromFields(s, f, w, if tail == "Z" then 0 else f.millisecond);
  }

  /** Text appended after `YYYY-MM-DDTHH:mm:ss` leaves its fields in place. */
  lemma PrefixLayout(a: string, tail: string, w: nat)
    requires |a| == w + 15 && Separators(a, w)
    ensures var s := a + tail;
            && s[..w] == a[..w] && Separators(s, w)
            && s[w + 1..w + 3] == a[w + 1..w + 3] && s[w + 4..w + 6] == a[w + 4..w + 6]
            && s[w + 7..w + 9] == a[w + 7..w + 9] && s[w + 10..w + 12] == a[w + 10..w + 12]
            && s[w + 13..w + 15] == a[w + 13..w + 15] && s[w + 15..] == tail
  {
  }

  /** A text whose every field reads as the matching field of `f`, and whose
      tail gives `ms`, parses as `f` with those milliseconds. */
  lemma ParseFromFields(s: string, f: DateTime, w: nat, ms: nat)
    requires ValidDateTime(f) && (ms == 0 || ms == f.millisecond)
    requires w == YearWidth(s) && w + 16 <= |s| && Separators(s, w)
    requires ParseYear(s, w) == Some(f.year)
    requires NumberField(s, w + 1, 2) == Some(f.month)
    requires NumberField(s, w + 4, 2) == Some(f.day)
    requires NumberField(s, w + 7, 2) == Some(f.hour)
    requires NumberField(s, w + 10, 2) == Some(f.minute)
    requires NumberField(s, w + 13, 2) == Some(f.second)
    requires ParseTail(s[w + 15..]) == Some(ms)
    ensures ParseDateTime(s) == Some(f.(millisecond := ms))
  {
  }

  /** toISOString's text reads back as the very time value it was made from. */
  lemma ISOStringRoundTrip(t: int)
    requires -MaxTimeValue <= t <= MaxTimeValue
    ensures ToISOString(t).Some?
    ensures var f := ParseDateTime(ToISOString(t).value); f.Some? && TimeFromFields(f.value) == t
  {
    var f := FieldsOf(t);
    var tail := "." + FixedDigits(f.millisecond, 3) + "Z";
    assert IsoText(f) == SecondsText(f) + tail;
    assert ToISOString(t) == Some(IsoText(f));
    ParseSecondsText(f, tail);
    FieldsRoundTrip(t);
  }
}
