/**
 * The proleptic Gregorian calendar behind `DateTime.UnixEpoch.AddSeconds(epoch)` and the
 * invariant-culture rendering `ToString("yyyy-MM-dd HH:mm:ss")`. A date-time is a value of six
 * integers; `UnixSeconds` is the reference definition of the seconds since 1970-01-01 00:00:00
 * UTC, and `FromUnixSeconds` is shown to invert it.
 */
module Calendar {
  import opened Wrappers
  import opened Integers

  const SecondsPerDay: int := 86400

  predicate IsLeapYear(y: int) {
    y % 4 == 0 && (y % 100 != 0 || y % 400 == 0)
  }

  function DaysInYear(y: int): int {
    if IsLeapYear(y) then 366 else 365
  }

  function DaysInMonth(y: int, m: int): int
    requires 1 <= m <= 12
  {
    if m == 2 then (if IsLeapYear(y) then 29 else 28)
    else if m == 4 || m == 6 || m == 9 || m == 11 then 30
    else 31
  }

  /** Days of year `y` before the first of month `m` (`m == 13` gives the whole year). */
  function DaysBeforeMonth(y: int, m: int): int
    requires 1 <= m <= 13
  {
    var common :=
      if m == 1 then 0 else if m == 2 then 31 else if m == 3 then 59 else if m == 4 then 90
      else if m == 5 then 120 else if m == 6 then 151 else if m == 7 then 181
      else if m == 8 then 212 else if m == 9 then 243 else if m == 10 then 273
      else if m == 11 then 304 else if m == 12 then 334 else 365;
    common + (if m > 2 && IsLeapYear(y) then 1 else 0)
  }

  lemma DaysBeforeNextMonth(y: int, m: int)
    requires 1 <= m <= 12
    ensures DaysBeforeMonth(y, m + 1) == DaysBeforeMonth(y, m) + DaysInMonth(y, m)
  {
  }

  /** Leap years among the years 1 .. y - 1 (and, counted negatively, before year 1). */
  function LeapYearsBefore(y: int): int {
    (y - 1) / 4 - (y - 1) / 100 + (y - 1) / 400
  }

  /** Days from 1970-01-01 to the first of January of year `y` (negative before 1970). */
  function DaysBeforeYear(y: int): int {
    365 * (y - 1970) + LeapYearsBefore(y) - LeapYearsBefore(1970)
  }

  lemma DaysBeforeNextYear(y: int)
    ensures DaysBeforeYear(y + 1) == DaysBeforeYear(y) + DaysInYear(y)
  {
    QuarterStep(y);
    CenturyStep(y);
    QuadCenturyStep(y);
    CenturyDivisibility(y);
  }

  /** Moving to the next year adds one multiple of 4 exactly when `y` is one. */
  lemma QuarterStep(y: int)
    ensures y / 4 - (y - 1) / 4 == if y % 4 == 0 then 1 else 0
  {
  }

  lemma CenturyStep(y: int)
    ensures y / 100 - (y - 1) / 100 == if y % 100 == 0 then 1 else 0
  {
    var q := (y - 1) / 100;
    if (y - 1) % 100 == 99 {
      assert y == 100 * (q + 1);
    } else {
      assert y == 100 * q + ((y - 1) % 100 + 1);
    }
  }

  lemma QuadCenturyStep(y: int)
    ensures y / 400 - (y - 1) / 400 == if y % 400 == 0 then 1 else 0
  {
    var q := (y - 1) / 400;
    if (y - 1) % 400 == 399 {
      assert y == 400 * (q + 1);
    } else {
      assert y == 400 * q + ((y - 1) % 400 + 1);
    }
  }

  /** Every century year is a multiple of 4, and every multiple of 400 a century year. */
  lemma CenturyDivisibility(y: int)
    ensures y % 100 == 0 ==> y % 4 == 0
    ensures y % 400 == 0 ==> y % 100 == 0
  {
    if y % 100 == 0 {
      assert y == 4 * (25 * (y / 100));
    }
    if y % 400 == 0 {
      assert y == 100 * (4 * (y / 400));
    }
  }

  datatype DateTime = DateTime(year: int, month: int, day: int, hour: int, minute: int, second: int)

  /** A real calendar date and a time of day on a 24-hour clock. */
  predicate Valid(dt: DateTime) {
    && 1 <= dt.month <= 12
    && 1 <= dt.day <= DaysInMonth(dt.year, dt.month)
    && 0 <= dt.hour < 24 && 0 <= dt.minute < 60 && 0 <= dt.second < 60
  }

  /** Days from 1970-01-01 to the given date. */
  function DayNumber(dt: DateTime): int
    requires Valid(dt)
  {
    DaysBeforeYear(dt.year) + DaysBeforeMonth(dt.year, dt.month) + dt.day - 1
  }

  /** Seconds from the Unix epoch to `dt`, UTC and without leap seconds, as .NET counts them. */
  function UnixSeconds(dt: DateTime): int
    requires Valid(dt)
  {
    DayNumber(dt) * SecondsPerDay + dt.hour * 3600 + dt.minute * 60 + dt.second
  }

  /** The year holding the day `off` days after the first of January of `y`, and that day's offset in it. */
  function LocateYear(y: int, off: int): (r: (int, int))
    ensures 0 <= r.1 < DaysInYear(r.0)
    decreases if off < 0 then 366 - off else off
  {
    if off < 0 then LocateYear(y - 1, off + DaysInYear(y - 1))
    else if off >= DaysInYear(y) then LocateYear(y + 1, off - DaysInYear(y))
    else (y, off)
  }

  /** The located year and offset name the same day as `y` and `off`. */
  lemma {:induction false} LocateYearCounts(y: int, off: int)
    ensures var r := LocateYear(y, off);
      DaysBeforeYear(r.0) + r.1 == DaysBeforeYear(y) + off
    decreases if off < 0 then 366 - off else off, 1
  {
    if off < 0 {
      LocateInEarlierYear(y, off);
    } else if off >= DaysInYear(y) {
      LocateInLaterYear(y, off);
    }
  }

  lemma {:induction false} LocateInEarlierYear(y: int, off: int)
    requires off < 0
    ensures var r := LocateYear(y, off);
      DaysBeforeYear(r.0) + r.1 == DaysBeforeYear(y) + off
    decreases 366 - off, 0
  {
    var off' := off + DaysInYear(y - 1);
    assert LocateYear(y, off) == LocateYear(y - 1, off');
    DaysBeforeNextYear(y - 1);
    LocateYearCounts(y - 1, off');
  }

  lemma {:induction false} LocateInLaterYear(y: int, off: int)
    requires off >= DaysInYear(y)
    ensures var r := LocateYear(y, off);
      DaysBeforeYear(r.0) + r.1 == DaysBeforeYear(y) + off
    decreases off, 0
  {
    var off' := off - DaysInYear(y);
    assert LocateYear(y, off) == LocateYear(y + 1, off');
    DaysBeforeNextYear(y);
    LocateYearCounts(y + 1, off');
  }

  /** The month and day of the day `off` days after the first of month `m` of year `y`. */
  function LocateMonth(y: int, m: int, off: int): (r: (int, int))
    requires 1 <= m <= 12
    requires 0 <= off < DaysInYear(y) - DaysBeforeMonth(y, m)
    ensures 1 <= r.0 <= 12 && 1 <= r.1 <= DaysInMonth(y, r.0)
    decreases 12 - m
  {
    DaysBeforeNextMonth(y, m);
    if off < DaysInMonth(y, m) then (m, off + 1)
    else LocateMonth(y, m + 1, off - DaysInMonth(y, m))
  }

  /** The located month and day name the same day of the year as `m` and `off`. */
  lemma {:induction false} LocateMonthCounts(y: int, m: int, off: int)
    requires 1 <= m <= 12
    requires 0 <= off < DaysInYear(y) - DaysBeforeMonth(y, m)
    ensures var r := LocateMonth(y, m, off);
      DaysBeforeMonth(y, r.0) + r.1 - 1 == DaysBeforeMonth(y, m) + off
    decreases 12 - m
  {
    DaysBeforeNextMonth(y, m);
    var dim := DaysInMonth(y, m);
    if off >= dim {
      assert m < 12;
      assert LocateMonth(y, m, off) == LocateMonth(y, m + 1, off - dim);
      LocateMonthCounts(y, m + 1, off - dim);
    }
  }

  /** `DateTime.UnixEpoch.AddSeconds(t)`: floor division splits `t` into days and seconds of the day. */
  function FromUnixSeconds(t: int): (dt: DateTime)
    ensures Valid(dt)
  {
    var days := t / SecondsPerDay;
    var sod := t % SecondsPerDay;
    var (y, doy) := LocateYear(1970, days);
    var (m, d) := LocateMonth(y, 1, doy);
    TimeOfDay(sod);
    DateTime(y, m, d, sod / 3600, sod % 3600 / 60, sod % 60)
  }

  /** `FromUnixSeconds` inverts `UnixSeconds`: the date-time lies exactly `t` seconds after the epoch. */
  lemma FromUnixSecondsCounts(t: int)
    ensures UnixSeconds(FromUnixSeconds(t)) == t
  {
    var days := t / SecondsPerDay;
    var sod := t % SecondsPerDay;
    LocateYearCounts(1970, days);
    var (y, doy) := LocateYear(1970, days);
    LocateMonthCounts(y, 1, doy);
    TimeOfDay(sod);
    assert t == days * SecondsPerDay + sod;
  }

  /** Seconds since midnight split into hours, minutes and seconds. */
  lemma TimeOfDay(sod: int)
    requires 0 <= sod < SecondsPerDay
    ensures 0 <= sod / 3600 < 24 && 0 <= sod % 3600 / 60 < 60 && 0 <= sod % 60 < 60
    ensures sod / 3600 * 3600 + sod % 3600 / 60 * 60 + sod % 60 == sod
  {
    var h, r := sod / 3600, sod % 3600;
    assert sod == 3600 * h + r && 0 <= r < 3600;
    var m, s := r / 60, r % 60;
    assert r == 60 * m + s && 0 <= s < 60;
    assert sod == 60 * (60 * h + m) + s;
    assert sod % 60 == s;
  }

  lemma {:induction false} DaysBeforeYearMonotone(a: int, b: int)
    requires a <= b
    ensures DaysBeforeYear(a) + 365 * (b - a) <= DaysBeforeYear(b)
    decreases b - a
  {
    if a < b {
      DaysBeforeYearMonotone(a, b - 1);
      DaysBeforeNextYear(b - 1);
    }
  }

  lemma YearOfDay(dt: DateTime)
    requires Valid(dt)
    ensures DaysBeforeYear(dt.year) <= DayNumber(dt) < DaysBeforeYear(dt.year + 1)
  {
    DaysBeforeNextYear(dt.year);
    DaysBeforeNextMonth(dt.year, dt.month);
    assert DaysBeforeMonth(dt.year, dt.month + 1) <= DaysBeforeMonth(dt.year, 13);
  }

  lemma DaysBeforeMonthMonotone(y: int, a: int, b: int)
    requires 1 <= a <= b <= 13
    ensures DaysBeforeMonth(y, a) <= DaysBeforeMonth(y, b)
  {
  }

  /** Within a day, hour, minute and second are determined by the seconds since midnight. */
  lemma TimeOfDayInjective(a: DateTime, b: DateTime)
    requires Valid(a) && Valid(b)
    requires a.hour * 3600 + a.minute * 60 + a.second == b.hour * 3600 + b.minute * 60 + b.second
    ensures a.hour == b.hour && a.minute == b.minute && a.second == b.second
  {
  }

  /** Distinct valid dates and times are distinct instants. */
  lemma UnixSecondsInjective(a: DateTime, b: DateTime)
    requires Valid(a) && Valid(b)
    requires UnixSeconds(a) == UnixSeconds(b)
    ensures a == b
  {
    var da, db := DayNumber(a), DayNumber(b);
    var sa := a.hour * 3600 + a.minute * 60 + a.second;
    var sb := b.hour * 3600 + b.minute * 60 + b.second;
    assert 0 <= sa < SecondsPerDay && 0 <= sb < SecondsPerDay;
    assert da * SecondsPerDay + sa == db * SecondsPerDay + sb;
    assert da == db;
    TimeOfDayInjective(a, b);
    SameDayNumber(a, b);
  }

  /** The day number determines the date. */
  lemma SameDayNumber(a: DateTime, b: DateTime)
    requires Valid(a) && Valid(b) && DayNumber(a) == DayNumber(b)
    ensures a.year == b.year && a.month == b.month && a.day == b.day
  {
    SameYear(a, b);
    SameMonth(a, b);
  }

  lemma SameYear(a: DateTime, b: DateTime)
    requires Valid(a) && Valid(b) && DayNumber(a) == DayNumber(b)
    ensures a.year == b.year
  {
    if a.year < b.year {
      EarlierYearEarlierDay(a, b);
    } else if b.year < a.year {
      EarlierYearEarlierDay(b, a);
    }
  }

  lemma EarlierYearEarlierDay(a: DateTime, b: DateTime)
    requires Valid(a) && Valid(b) && a.year < b.year
    ensures DayNumber(a) < DayNumber(b)
  {
    YearOfDay(a);
    YearOfDay(b);
    DaysBeforeYearMonotone(a.year + 1, b.year);
    assert DayNumber(a) < DaysBeforeYear(a.year + 1) <= DaysBeforeYear(b.year) <= DayNumber(b);
  }

  lemma SameMonth(a: DateTime, b: DateTime)
    requires Valid(a) && Valid(b) && a.year == b.year && DayNumber(a) == DayNumber(b)
    ensures a.month == b.month
  {
    var y := a.year;
    assert DaysBeforeMonth(y, a.month) + a.day == DaysBeforeMonth(y, b.month) + b.day;
    if a.month < b.month {
      DaysBeforeNextMonth(y, a.month);
      DaysBeforeMonthMonotone(y, a.month + 1, b.month);
    } else if b.month < a.month {
      DaysBeforeNextMonth(y, b.month);
      DaysBeforeMonthMonotone(y, b.month + 1, a.month);
    }
  }

  /** Every 32-bit epoch value falls in the years 1901 to 2038. */
  lemma Int32Years(t: int)
    requires IsInt32(t)
    ensures 1901 <= FromUnixSeconds(t).year <= 2038
  {
    var dt := FromUnixSeconds(t);
    FromUnixSecondsCounts(t);
    YearOfDay(dt);
    var days := DayNumber(dt);
    assert -24856 <= days <= 24855;
    if dt.year > 2038 {
      DaysBeforeYearMonotone(2039, dt.year);
    }
    if dt.year < 1901 {
      DaysBeforeYearMonotone(dt.year + 1, 1901);
    }
  }

  function Pow10(w: nat): nat {
    if w == 0 then 1 else 10 * Pow10(w - 1)
  }

  /** `n` in exactly `width` decimal digits, zero-padded: the custom-format fields `yyyy`, `MM`, `dd`, `HH`, `mm`, `ss`. */
  function Fixed(n: nat, width: nat): (s: string)
    requires n < Pow10(width)
    ensures |s| == width
  {
    if width == 0 then "" else Fixed(n / 10, width - 1) + [DigitChar(n % 10)]
  }

  /** A zero-padded field is all digits and reads back as its number. */
  lemma {:induction false} FixedReadsBack(n: nat, width: nat)
    requires n < Pow10(width)
    ensures AllDigits(Fixed(n, width))
    ensures DigitsValue(Fixed(n, width)) == n
  {
    if width > 0 {
      var prefix := Fixed(n / 10, width - 1);
      FixedReadsBack(n / 10, width - 1);
      var s := Fixed(n, width);
      assert s[..|s| - 1] == prefix;
    }
  }

  predicate AllDigits(s: string) {
    forall i :: 0 <= i < |s| ==> IsDigit(s[i])
  }

  /** `dt.ToString("yyyy-MM-dd HH:mm:ss", CultureInfo.InvariantCulture)`. */
  function FormatTimestamp(dt: DateTime): (s: string)
    requires Valid(dt) && 0 <= dt.year < 10000
    ensures |s| == 19
  {
    Fixed(dt.year, 4) + "-" + Fixed(dt.month, 2) + "-" + Fixed(dt.day, 2) + " "
      + Fixed(dt.hour, 2) + ":" + Fixed(dt.minute, 2) + ":" + Fixed(dt.second, 2)
  }

  /** Reads a `yyyy-MM-dd HH:mm:ss` text back; only real date-times are accepted. */
  function ParseTimestamp(s: string): (r: Option<DateTime>)
    ensures r.Some? ==> Valid(r.value)
  {
    if && |s| == 19
       && s[4] == '-' && s[7] == '-' && s[10] == ' ' && s[13] == ':' && s[16] == ':'
       && AllDigits(s[0..4]) && AllDigits(s[5..7]) && AllDigits(s[8..10])
       && AllDigits(s[11..13]) && AllDigits(s[14..16]) && AllDigits(s[17..19])
    then
      var dt := DateTime(DigitsValue(s[0..4]), DigitsValue(s[5..7]), DigitsValue(s[8..10]),
                         DigitsValue(s[11..13]), DigitsValue(s[14..16]), DigitsValue(s[17..19]));
      if Valid(dt) then Some(dt) else None
    else None
  }

  /** A readable timestamp holds digits and the three punctuation marks `-`, ` `, `:` only. */
  lemma TimestampCharacters(s: string)
    requires ParseTimestamp(s).Some?
    ensures forall i :: 0 <= i < |s| ==> IsDigit(s[i]) || s[i] == '-' || s[i] == ' ' || s[i] == ':'
  {
    forall i | 0 <= i < |s| ensures IsDigit(s[i]) || s[i] == '-' || s[i] == ' ' || s[i] == ':' {
      if i < 4 { assert s[0..4][i] == s[i]; }
      else if 4 < i < 7 { assert s[5..7][i - 5] == s[i]; }
      else if 7 < i < 10 { assert s[8..10][i - 8] == s[i]; }
      else if 10 < i < 13 { assert s[11..13][i - 11] == s[i]; }
      else if 13 < i < 16 { assert s[14..16][i - 14] == s[i]; }
      else if 16 < i { assert s[17..19][i - 17] == s[i]; }
    }
  }

  /** The rendering is read back exactly. */
  lemma ParseFormat(dt: DateTime)
    requires Valid(dt) && 0 <= dt.year < 10000
    ensures ParseTimestamp(FormatTimestamp(dt)) == Some(dt)
  {
    var s := FormatTimestamp(dt);
    RenderingFields(dt);
    FixedReadsBack(dt.year, 4);
    FixedReadsBack(dt.month, 2);
    FixedReadsBack(dt.day, 2);
    FixedReadsBack(dt.hour, 2);
    FixedReadsBack(dt.minute, 2);
    FixedReadsBack(dt.second, 2);
  }

  /** Where each field and separator sits in a rendering. */
  lemma RenderingFields(dt: DateTime)
    requires Valid(dt) && 0 <= dt.year < 10000
    ensures var s := FormatTimestamp(dt);
      && s[4] == '-' && s[7] == '-' && s[10] == ' ' && s[13] == ':' && s[16] == ':'
      && s[0..4] == Fixed(dt.year, 4) && s[5..7] == Fixed(dt.month, 2) && s[8..10] == Fixed(dt.day, 2)
      && s[11..13] == Fixed(dt.hour, 2) && s[14..16] == Fixed(dt.minute, 2) && s[17..19] == Fixed(dt.second, 2)
  {
  }

  /**
   * The text that replaces field 1 of a data row:
   * `DateTime.UnixEpoch.AddSeconds(t).ToString("yyyy-MM-dd HH:mm:ss", CultureInfo.InvariantCulture)`.
   * It reads back as the date-time `t` seconds after the epoch (unique by `UnixSecondsInjective`).
   */
  function FormatUnixTime(t: int): (s: string)
    requires IsInt32(t)
    ensures |s| == 19
  {
    Int32Years(t);
    FormatTimestamp(FromUnixSeconds(t))
  }

  /**
   * The rendering of a 32-bit epoch value reads back as a valid date and time whose seconds
   * since the epoch are that value, in the years 1901 to 2038.
   */
  lemma FormatUnixTimeReadsBack(t: int)
    requires IsInt32(t)
    ensures ParseTimestamp(FormatUnixTime(t)).Some?
    ensures UnixSeconds(ParseTimestamp(FormatUnixTime(t)).value) == t
    ensures 1901 <= ParseTimestamp(FormatUnixTime(t)).value.year <= 2038
  {
    var dt := FromUnixSeconds(t);
    Int32Years(t);
    FromUnixSecondsCounts(t);
    ParseFormat(dt);
  }

  /** `FormatUnixTime(t)` is the rendering of the one valid date-time that lies `t` seconds after the epoch. */
  lemma UnixTimeRendering(t: int, dt: DateTime)
    requires IsInt32(t) && Valid(dt) && 0 <= dt.year < 10000 && UnixSeconds(dt) == t
    ensures FormatUnixTime(t) == FormatTimestamp(dt)
  {
    FromUnixSecondsCounts(t);
    UnixSecondsInjective(FromUnixSeconds(t), dt);
  }
}
