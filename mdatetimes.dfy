/**
 * The MySQL-compatible packed integer encodings of DATE, DATETIME and TIME values,
 * the Gregorian last-day-of-month rule, the validity checks built on it, and the
 * bounds-checked lookup of month and weekday names.
 *
 * A broken-down date/time is a Java `long[]`, here a `seq<Long>`, indexed by
 * YEAR_INDEX .. SEC_INDEX. Java's truncating `/` and `%` and its `int`/`long`
 * overflow are written out with JavaInts.
 */
module MDatetimes {
  import opened JavaInts

  const YEAR_INDEX := 0
  const MONTH_INDEX := 1
  const DAY_INDEX := 2
  const HOUR_INDEX := 3
  const MIN_INDEX := 4
  const SEC_INDEX := 5

  const DATE_YEAR := 10000
  const DATE_MONTH := 100

  const DATETIME_DATE_SCALE := 1000000
  const DATETIME_YEAR_SCALE := 10000 * DATETIME_DATE_SCALE
  const DATETIME_MONTH_SCALE := 100 * DATETIME_DATE_SCALE
  const DATETIME_DAY_SCALE := 1 * DATETIME_DATE_SCALE
  const DATETIME_HOUR_SCALE := 10000
  const DATETIME_MIN_SCALE := 100

  // ---------------------------------------------------------------- DATE

  /** DATE packs year, month and day as `y * 512 + m * 32 + d`, narrowed to an `int`. */
  function EncodeDate(ymd: seq<Long>): Int32
    requires |ymd| >= 3
  {
    // The long intermediates may overflow too, but that never changes the low 32 bits.
    Wrap32(ymd[YEAR_INDEX] as int * 512 + ymd[MONTH_INDEX] as int * 32 + ymd[DAY_INDEX] as int)
  }

  function DecodeDate(val: Long): (r: seq<Long>)
    ensures |r| == 3
    ensures -16 < r[MONTH_INDEX] < 16 && -32 < r[DAY_INDEX] < 32
    ensures val >= 0 ==> r[YEAR_INDEX] >= 0 && r[MONTH_INDEX] >= 0 && r[DAY_INDEX] >= 0
  {
    [Div(val, 512), Rem(Div(val, 32), 16), Rem(val, 32)]
  }

  /** Decoding undoes encoding for every field combination whose packed value fits in an `int`. */
  lemma DateRoundTrip(ymd: seq<Long>)
    requires |ymd| == 3
    requires ymd[YEAR_INDEX] >= 0 && 0 <= ymd[MONTH_INDEX] < 16 && 0 <= ymd[DAY_INDEX] < 32
    requires ymd[YEAR_INDEX] * 512 + ymd[MONTH_INDEX] * 32 + ymd[DAY_INDEX] <= INT_MAX
    ensures DecodeDate(EncodeDate(ymd)) == ymd
  {
    var y, m, d := ymd[0], ymd[1], ymd[2];
    var v := y * 512 + m * 32 + d;
    DivModUnique(v, 512, y, m * 32 + d);
    DivModUnique(v, 32, y * 16 + m, d);
    DivModUnique(y * 16 + m, 16, y, m);
  }

  /** Encoding undoes decoding: every `long` comes back, narrowed to an `int`. */
  lemma DateEncodeDecode(val: Long)
    ensures EncodeDate(DecodeDate(val)) == Wrap32(val)
  {
    DivDiv(val, 32, 16);
    var t := Div(val, 32);
    assert Rem(t, 16) == t - 16 * Div(val, 512);
  }

  /** FromDate reads a decimal YYYYMMDD number as a broken-down datetime at midnight. */
  function FromDate(val: Long): (r: seq<Long>)
    ensures |r| == 6 && r[HOUR_INDEX] == 0 && r[MIN_INDEX] == 0 && r[SEC_INDEX] == 0
    ensures -100 < r[MONTH_INDEX] < 100 && -100 < r[DAY_INDEX] < 100
  {
    [Div(val, DATE_YEAR), Rem(Div(val, DATE_MONTH), DATE_MONTH), Rem(val, DATE_MONTH), 0, 0, 0]
  }

  lemma FromDateDecimal(ymd: seq<Long>)
    requires |ymd| == 3
    requires ymd[YEAR_INDEX] >= 0 && 0 <= ymd[MONTH_INDEX] < 100 && 0 <= ymd[DAY_INDEX] < 100
    requires ymd[YEAR_INDEX] * 10000 + ymd[MONTH_INDEX] * 100 + ymd[DAY_INDEX] <= LONG_MAX
    ensures FromDate(ymd[YEAR_INDEX] * 10000 + ymd[MONTH_INDEX] * 100 + ymd[DAY_INDEX]) == ymd + [0, 0, 0]
  {
    var y, m, d := ymd[0], ymd[1], ymd[2];
    var v := y * 10000 + m * 100 + d;
    DivModUnique(v, 10000, y, m * 100 + d);
    DivModUnique(v, 100, y * 100 + m, d);
    DivModUnique(y * 100 + m, 100, y, m);
  }

  /** Re-packing a FromDate result as a DATETIME yields the date scaled to midnight. */
  lemma FromDateToDatetime(val: Long)
    ensures EncodeDatetime(FromDate(val)) == Wrap64(val * DATETIME_DATE_SCALE)
  {
    DivDiv(val, 100, 100);
    var t := Div(val, 100);
    assert Rem(t, 100) == t - 100 * Div(val, 10000);
  }

  /** The two date packings differ: a DATE value read by FromDate is not its decoding. */
  lemma FromDateIsNotDecodeDate()
    ensures EncodeDate([2013, 1, 1]) == 1030689
    ensures DecodeDate(1030689) == [2013, 1, 1]
    ensures FromDate(1030689) == [103, 6, 89, 0, 0, 0]
  {
  }

  // ---------------------------------------------------------------- DATETIME

  /** DATETIME packs the six fields as the decimal number YYYYMMDDhhmmss, in `long` arithmetic. */
  function EncodeDatetime(ymd: seq<Long>): Long
    requires |ymd| >= 6
  {
    Wrap64(ymd[YEAR_INDEX] * DATETIME_YEAR_SCALE
      + ymd[MONTH_INDEX] * DATETIME_MONTH_SCALE
      + ymd[DAY_INDEX] * DATETIME_DAY_SCALE
      + ymd[HOUR_INDEX] * DATETIME_HOUR_SCALE
      + ymd[MIN_INDEX] * DATETIME_MIN_SCALE
      + ymd[SEC_INDEX])
  }

  function DecodeDatetime(val: Long): (r: seq<Long>)
    ensures |r| == 6
    ensures forall i :: MONTH_INDEX <= i <= SEC_INDEX ==> -100 < r[i] < 100
    ensures val >= 0 ==> forall i :: 0 <= i < 6 ==> r[i] >= 0
  {
    [ Div(val, DATETIME_YEAR_SCALE),
      Rem(Div(val, DATETIME_MONTH_SCALE), 100),
      Rem(Div(val, DATETIME_DAY_SCALE), 100),
      Rem(Div(val, DATETIME_HOUR_SCALE), 100),
      Rem(Div(val, DATETIME_MIN_SCALE), 100),
      Rem(val, 100) ]
  }

  /** The exact (unbounded) value of the DATETIME packing. */
  function PackedDatetime(ymd: seq<int>): int
    requires |ymd| >= 6
  {
    ymd[0] * 10000000000 + ymd[1] * 100000000 + ymd[2] * 1000000 + ymd[3] * 10000 + ymd[4] * 100 + ymd[5]
  }

  /** Decoding undoes encoding when the year is non-negative, every other field is a
      two-digit number and the packed value fits in a `long`. */
  lemma DatetimeRoundTrip(ymd: seq<Long>)
    requires |ymd| == 6 && ymd[YEAR_INDEX] >= 0
    requires forall i :: MONTH_INDEX <= i <= SEC_INDEX ==> 0 <= ymd[i] < 100
    requires PackedDatetime(ymd) <= LONG_MAX
    ensures DecodeDatetime(EncodeDatetime(ymd)) == ymd
  {
    var y, mo, d, h, mi, s := ymd[0], ymd[1], ymd[2], ymd[3], ymd[4], ymd[5];
    var v := PackedDatetime(ymd);
    assert EncodeDatetime(ymd) == v;
    var t2 := y * 100000000 + mo * 1000000 + d * 10000 + h * 100 + mi;
    var t4 := y * 1000000 + mo * 10000 + d * 100 + h;
    var t6 := y * 10000 + mo * 100 + d;
    var t8 := y * 100 + mo;
    DivModUnique(v, 10000000000, y, v - y * 10000000000);
    DivModUnique(v, 100000000, t8, v - t8 * 100000000);
    DivModUnique(v, 1000000, t6, v - t6 * 1000000);
    DivModUnique(v, 10000, t4, v - t4 * 10000);
    DivModUnique(v, 100, t2, s);
    DivModUnique(t8, 100, y, mo);
    DivModUnique(t6, 100, t8, d);
    DivModUnique(t4, 100, t6, h);
    DivModUnique(t2, 100, t4, mi);
  }

  /** Encoding undoes decoding for every `long`, negative ones included. */
  lemma DatetimeEncodeDecode(val: Long)
    ensures EncodeDatetime(DecodeDatetime(val)) == val
  {
    DivDiv(val, DATETIME_MONTH_SCALE, 100);
    DivDiv(val, DATETIME_DAY_SCALE, 100);
    DivDiv(val, DATETIME_HOUR_SCALE, 100);
    DivDiv(val, DATETIME_MIN_SCALE, 100);
    var r := DecodeDatetime(val);
    assert r[1] == Div(val, 100000000) - 100 * Div(val, 10000000000);
    assert r[2] == Div(val, 1000000) - 100 * Div(val, 100000000);
    assert r[3] == Div(val, 10000) - 100 * Div(val, 1000000);
    assert r[4] == Div(val, 100) - 100 * Div(val, 10000);
    assert r[5] == val - 100 * Div(val, 100);
  }

  // ---------------------------------------------------------------- TIME

  /** TIME packs hour, minute and second (indices 3..5) as the decimal number hhmmss. */
  function EncodeTime(val: seq<Long>): Long
    requires |val| >= 6
  {
    Wrap64(val[HOUR_INDEX] * DATETIME_HOUR_SCALE + val[MIN_INDEX] * DATETIME_MIN_SCALE + val[SEC_INDEX])
  }

  /** A decoded TIME always carries the date part 1970-01-01. */
  function DecodeTime(val: Long): (r: seq<Long>)
    ensures |r| == 6 && r[..3] == [1970, 1, 1]
    ensures -100 < r[MIN_INDEX] < 100 && -100 < r[SEC_INDEX] < 100
  {
    [1970, 1, 1, Div(val, DATETIME_HOUR_SCALE), Rem(Div(val, DATETIME_MIN_SCALE), 100), Rem(val, 100)]
  }

  lemma TimeRoundTrip(v: seq<Long>)
    requires |v| == 6 && v[HOUR_INDEX] >= 0 && 0 <= v[MIN_INDEX] < 100 && 0 <= v[SEC_INDEX] < 100
    requires v[HOUR_INDEX] * 10000 + v[MIN_INDEX] * 100 + v[SEC_INDEX] <= LONG_MAX
    ensures DecodeTime(EncodeTime(v)) == [1970, 1, 1] + v[HOUR_INDEX..]
  {
    var h, mi, s := v[3], v[4], v[5];
    var x := h * 10000 + mi * 100 + s;
    DivModUnique(x, 10000, h, mi * 100 + s);
    DivModUnique(x, 100, h * 100 + mi, s);
    DivModUnique(h * 100 + mi, 100, h, mi);
  }

  /** The fit in a `long` is needed: an hour whose packing overflows decodes as a negative hour. */
  lemma TimeRoundTripNeedsFit()
    ensures var v := [1970, 1, 1, 922337203685478, 0, 0];
      EncodeTime(v) < 0 && DecodeTime(EncodeTime(v)) != [1970, 1, 1] + v[HOUR_INDEX..]
  {
  }

  lemma TimeEncodeDecode(val: Long)
    ensures EncodeTime(DecodeTime(val)) == val
  {
    DivDiv(val, DATETIME_MIN_SCALE, 100);
    var t := Div(val, 100);
    assert Rem(t, 100) == t - 100 * Div(val, 10000);
  }

  /** encodeTime(millis, tz) as written, from the hour, minute and second that the time-zone
      conversion yields: the minute is scaled by DATETIME_HOUR_SCALE, like the hour. */
  function EncodeTimeOfDayAsWritten(hour: Long, minute: Long, second: Long): Int32
    requires 0 <= hour < 24 && 0 <= minute < 60 && 0 <= second < 60
  {
    hour * DATETIME_HOUR_SCALE + minute * DATETIME_HOUR_SCALE + second
  }

  /** As written, 00:01:00 and 01:00:00 get the same code, which decodes as 01:00:00. */
  lemma EncodeTimeOfDayAsWrittenCollides()
    ensures EncodeTimeOfDayAsWritten(0, 1, 0) == EncodeTimeOfDayAsWritten(1, 0, 0) == 10000
    ensures DecodeTime(EncodeTimeOfDayAsWritten(0, 1, 0)) == [1970, 1, 1, 1, 0, 0]
  {
  }

  /** encodeTime(millis, tz) with the minute scaled by DATETIME_MIN_SCALE, the packing that
      encodeTime(long[]) and decodeTime use. */
  function EncodeTimeOfDay(hour: Long, minute: Long, second: Long): (r: Int32)
    requires 0 <= hour < 24 && 0 <= minute < 60 && 0 <= second < 60
    ensures 0 <= r <= 235959
  {
    hour * DATETIME_HOUR_SCALE + minute * DATETIME_MIN_SCALE + second
  }

  /** Every time of day comes back from decodeTime, so distinct times get distinct codes. */
  lemma EncodeTimeOfDayRoundTrip(hour: Long, minute: Long, second: Long)
    requires 0 <= hour < 24 && 0 <= minute < 60 && 0 <= second < 60
    ensures DecodeTime(EncodeTimeOfDay(hour, minute, second)) == [1970, 1, 1, hour, minute, second]
  {
    var v := [1970, 1, 1, hour, minute, second];
    assert EncodeTime(v) == EncodeTimeOfDay(hour, minute, second);
    ValidTimeRoundTrip(v);
  }

  // ---------------------------------------------------------------- calendar rules

  /** The Gregorian leap-year rule in its usual form. */
  predicate IsLeapYear(y: int) {
    y % 4 == 0 && (y % 100 != 0 || y % 400 == 0)
  }

  /** The source's test on Java remainders is the leap-year rule, for negative years too. */
  lemma LeapRule(y: int)
    ensures (Rem(y, 400) == 0 || (Rem(y, 4) == 0 && Rem(y, 100) != 0)) <==> IsLeapYear(y)
  {
    RemZeroIsDivisible(y, 4);
    RemZeroIsDivisible(y, 100);
    RemZeroIsDivisible(y, 400);
    if y % 400 == 0 {
      var k := y / 400;
      assert y == 4 * (100 * k) && y == 100 * (4 * k);
      DivModUnique(y, 4, 100 * k, 0);
      DivModUnique(y, 100, 4 * k, 0);
    }
  }

  /** The last day of the month `ymd[1]` of year `ymd[0]`; month 0 counts as 31 days and every
      month outside 0..12 yields -1. The month is narrowed to an `int` before the switch. */
  function GetLastDay(ymd: seq<Long>): (r: Long)
    requires |ymd| >= 2
    ensures r == -1 || 28 <= r <= 31
    ensures r > 0 <==> 0 <= Wrap32(ymd[MONTH_INDEX]) <= 12
    ensures r == 29 <==> Wrap32(ymd[MONTH_INDEX]) == 2 && IsLeapYear(ymd[YEAR_INDEX])
    ensures Wrap32(ymd[MONTH_INDEX]) == 2 && !IsLeapYear(ymd[YEAR_INDEX]) ==> r == 28
  {
    var y := ymd[YEAR_INDEX];
    LeapRule(y);
    match Wrap32(ymd[MONTH_INDEX])
    case 2 => if Rem(y, 400) == 0 || (Rem(y, 4) == 0 && Rem(y, 100) != 0) then 29 else 28
    case 4 | 6 | 9 | 11 => 30
    case 3 | 1 | 5 | 7 | 8 | 10 | 0 | 12 => 31
    case _ => -1
  }

  /** The month lengths of a common year, December also standing in for month 0. */
  const MONTH_LENGTHS: seq<int> := [31, 31, 28, 31, 30, 31, 30, 31, 31, 30, 31, 30, 31]

  /** Outside February a month's last day is its entry in the table of month lengths. */
  lemma LastDayMatchesTable(y: Long, m: Long)
    requires 0 <= m <= 12 && m != 2
    ensures GetLastDay([y, m]) == MONTH_LENGTHS[m]
  {
  }

  /** The number of days in months 1..m of year y, by GetLastDay. */
  function DaysThroughMonth(y: Long, m: nat): int
    requires m <= 12
  {
    if m == 0 then 0 else DaysThroughMonth(y, m - 1) + GetLastDay([y, m])
  }

  /** The twelve months add up to 365 days, or 366 in a leap year. */
  lemma YearLength(y: Long)
    ensures DaysThroughMonth(y, 12) == if IsLeapYear(y) then 366 else 365
  {
    assert DaysThroughMonth(y, 1) == 31;
    assert DaysThroughMonth(y, 2) == 31 + GetLastDay([y, 2]);
    assert DaysThroughMonth(y, 3) == 62 + GetLastDay([y, 2]);
    assert DaysThroughMonth(y, 4) == 92 + GetLastDay([y, 2]);
    assert DaysThroughMonth(y, 5) == 123 + GetLastDay([y, 2]);
    assert DaysThroughMonth(y, 6) == 153 + GetLastDay([y, 2]);
    assert DaysThroughMonth(y, 7) == 184 + GetLastDay([y, 2]);
    assert DaysThroughMonth(y, 8) == 215 + GetLastDay([y, 2]);
    assert DaysThroughMonth(y, 9) == 245 + GetLastDay([y, 2]);
    assert DaysThroughMonth(y, 10) == 276 + GetLastDay([y, 2]);
    assert DaysThroughMonth(y, 11) == 306 + GetLastDay([y, 2]);
    assert DaysThroughMonth(y, 12) == 337 + GetLastDay([y, 2]);
  }

  /** The rule repeats every 400 years. */
  lemma LastDayCycle(y: Long, m: Long)
    requires y + 400 <= LONG_MAX
    ensures GetLastDay([y + 400, m]) == GetLastDay([y, m])
  {
    assert (y + 400) % 4 == y % 4 && (y + 400) % 100 == y % 100 && (y + 400) % 400 == y % 400;
    assert IsLeapYear(y + 400) == IsLeapYear(y);
  }

  predicate IsValidHrMinSec(ymdhms: seq<Long>)
    requires |ymdhms| >= 6
  {
    ymdhms[HOUR_INDEX] >= 0 && ymdhms[HOUR_INDEX] < 24
      && ymdhms[MIN_INDEX] >= 0 && ymdhms[MIN_INDEX] < 60
      && ymdhms[SEC_INDEX] >= 0 && ymdhms[SEC_INDEX] < 60
  }

  predicate IsValidDayMonth(ymd: seq<Long>)
    requires |ymd| >= 3
  {
    var last := GetLastDay(ymd);
    last > 0 && ymd[DAY_INDEX] <= last
  }

  predicate IsValidDatetime(ymdhms: seq<Long>)
    requires |ymdhms| >= 6
  {
    IsValidDayMonth(ymdhms) && IsValidHrMinSec(ymdhms)
  }

  /** A valid time of day packs into 0..235959 and decodes back. */
  lemma ValidTimeRoundTrip(v: seq<Long>)
    requires |v| == 6 && IsValidHrMinSec(v)
    ensures 0 <= EncodeTime(v) <= 235959
    ensures DecodeTime(EncodeTime(v)) == [1970, 1, 1] + v[HOUR_INDEX..]
  {
    TimeRoundTrip(v);
  }

  /** A valid datetime has a month in 0..12 (after narrowing), a day at most the month's last
      day, and a time of day; there is no lower bound on the day. */
  lemma ValidDatetimeMeans(v: seq<Long>)
    requires |v| >= 6
    ensures IsValidDatetime(v) <==>
      && 0 <= Wrap32(v[MONTH_INDEX]) <= 12
      && v[DAY_INDEX] <= GetLastDay(v)
      && 0 <= v[HOUR_INDEX] < 24 && 0 <= v[MIN_INDEX] < 60 && 0 <= v[SEC_INDEX] < 60
  {
  }

  /** Consequences of the missing lower bound and of month 0 counting as a month. */
  lemma ValidDatetimeExamples()
    ensures IsValidDatetime([2000, 1, -5, 0, 0, 0])
    ensures IsValidDatetime([2000, 0, 0, 0, 0, 0])
    ensures !IsValidDatetime([2001, 2, 29, 0, 0, 0]) && IsValidDatetime([2000, 2, 29, 0, 0, 0])
    ensures !IsValidDatetime([1900, 2, 29, 0, 0, 0])
    ensures !IsValidDatetime([2000, 13, 1, 0, 0, 0]) && !IsValidDatetime([2000, 1, 1, 24, 0, 0])
  {
  }

  /** A valid datetime with a non-negative year and day, a month that fits an `int` and a
      packing that fits a `long` survives the DATETIME packing. */
  lemma ValidDatetimeRoundTrip(v: seq<Long>)
    requires |v| == 6 && IsValidDatetime(v)
    requires 0 <= v[YEAR_INDEX] && 0 <= v[MONTH_INDEX] <= INT_MAX && 0 <= v[DAY_INDEX]
    requires PackedDatetime(v) <= LONG_MAX
    ensures DecodeDatetime(EncodeDatetime(v)) == v
  {
    DatetimeRoundTrip(v);
  }

  /** The month bound is needed: isValidDatetime narrows the month to an `int`, so month
      2^32 + 1 passes as January, but the packing cannot carry it. */
  lemma ValidDatetimeMonthWraps()
    ensures var v := [2000, 0x1_0000_0001, 1, 0, 0, 0];
      IsValidDatetime(v) && DecodeDatetime(EncodeDatetime(v)) != v
  {
  }

  /** The sign bounds are needed: isValidDayMonth puts no lower bound on the day and none
      is put on the year, yet a negative day or year can decode to other fields. */
  lemma ValidDatetimeNegativeFields()
    ensures var v := [2000, 1, -1, 0, 0, 0];
      IsValidDatetime(v) && DecodeDatetime(EncodeDatetime(v)) != v
    ensures var v := [-1, 1, 1, 0, 0, 0];
      IsValidDatetime(v) && DecodeDatetime(EncodeDatetime(v)) != v
  {
  }

  // ---------------------------------------------------------------- names

  /** What `context.reportBadValue` is told before `getVal` returns null. */
  datatype BadValueReport = OutOfRange(name: string, numericRep: int) | UnsupportedLocale(locale: string)

  /** The outcome of a name lookup: the name, a null after a bad-value report, or the
      ArrayIndexOutOfBoundsException of indexing a table that is too short. */
  datatype NameLookup = Name(value: string) | Null(report: BadValueReport) | IndexOutOfBounds

  /** The locale tables (MONTHS, SHORT_MONTHS, WEEKDAYS, SHORT_WEEKDAYS): locale to names. */
  type NameTable = map<string, seq<string>>

  function GetVal(numericRep: Int32, locale: string, table: NameTable, name: string, max: Int32, min: Int32): (r: NameLookup)
    ensures (numericRep > max || numericRep < min) ==> r == Null(OutOfRange(name, numericRep))
    ensures min <= numericRep <= max && locale !in table ==> r == Null(UnsupportedLocale(locale))
    ensures r.Name? <==> min <= numericRep <= max && locale in table && 0 <= numericRep < |table[locale]|
    ensures r.Name? ==> r.value == table[locale][numericRep]
  {
    if numericRep > max || numericRep < min then
      Null(OutOfRange(name, numericRep))
    else if locale !in table then
      Null(UnsupportedLocale(locale))
    else if 0 <= numericRep < |table[locale]| then
      Name(table[locale][numericRep])
    else
      IndexOutOfBounds
  }

  /** Month numbers are 1-based: the lookup index is `numericRep - 1` in `int` arithmetic. */
  function GetMonthName(numericRep: Int32, locale: string, months: NameTable): NameLookup {
    GetVal(Wrap32(numericRep - 1), locale, months, "month", 11, 0)
  }

  function GetShortMonthName(numericRep: Int32, locale: string, shortMonths: NameTable): NameLookup {
    GetVal(Wrap32(numericRep - 1), locale, shortMonths, "month", 11, 0)
  }

  /** Weekday numbers index the table directly. */
  function GetWeekDayName(numericRep: Int32, locale: string, weekdays: NameTable): NameLookup {
    GetVal(numericRep, locale, weekdays, "weekday", 6, 0)
  }

  function GetShortWeekDayName(numericRep: Int32, locale: string, shortWeekdays: NameTable): NameLookup {
    GetVal(numericRep, locale, shortWeekdays, "weekdays", 6, 0)
  }

  /** Months 1..12 name entries 0..11 of a table that has them; anything else is reported
      as month `numericRep - 1` out of range. */
  lemma MonthNameShift(numericRep: Int32, locale: string, months: NameTable)
    requires locale in months && |months[locale]| >= 12
    ensures 1 <= numericRep <= 12 ==> GetMonthName(numericRep, locale, months) == Name(months[locale][numericRep - 1])
    ensures !(1 <= numericRep <= 12) ==>
      GetMonthName(numericRep, locale, months) == Null(OutOfRange("month", Wrap32(numericRep - 1)))
  {
  }

  /** The Java `int` subtraction: month INT_MIN wraps to index INT_MAX and is still rejected. */
  lemma MonthNameMinimum(locale: string, months: NameTable)
    ensures GetMonthName(INT_MIN, locale, months) == Null(OutOfRange("month", INT_MAX))
  {
  }

  /** The short-name lookups are the long ones over their own tables; only the name in the
      short weekday's out-of-range report differs. */
  lemma ShortNameLookups(numericRep: Int32, locale: string, table: NameTable)
    ensures GetShortMonthName(numericRep, locale, table) == GetMonthName(numericRep, locale, table)
    ensures var short, long := GetShortWeekDayName(numericRep, locale, table), GetWeekDayName(numericRep, locale, table);
      if 0 <= numericRep <= 6 then short == long
      else short == Null(OutOfRange("weekdays", numericRep)) && long == Null(OutOfRange("weekday", numericRep))
  {
  }

  /** Weekday numbers 0..6 name entries 0..6 of a table that has them. */
  lemma WeekDayNameDirect(numericRep: Int32, locale: string, weekdays: NameTable)
    requires locale in weekdays && |weekdays[locale]| >= 7
    ensures 0 <= numericRep <= 6 <==> GetWeekDayName(numericRep, locale, weekdays).Name?
    ensures 0 <= numericRep <= 6 ==> GetWeekDayName(numericRep, locale, weekdays) == Name(weekdays[locale][numericRep])
  {
  }
}
