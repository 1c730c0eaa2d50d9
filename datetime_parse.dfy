/**
 * MDatetimes.parseDatetime: reading "Y-M-D" or "Y-M-D h:m:s[.frac][(+|-)hh:mm]" into a packed
 * DATETIME. The source matches the whole trimmed text against a regular expression:
 * three digit groups separated by '-', optionally followed by white space, three digit
 * groups separated by ':', an optional '.' and digits, and an optional '+' or '-' zone of
 * two digit groups separated by ':'. Here that pattern is a hand-written parser whose
 * one-character lookahead is enough, because every digit group in the pattern is followed
 * by a non-digit or the end.
 */
module DatetimeParse {
  import opened Wrappers
  import opened JavaInts
  import opened MDatetimes

  // ---------------------------------------------------------------- characters

  /** `\d` in a Java pattern without flags: an ASCII digit. */
  predicate IsDigit(c: char) {
    '0' <= c <= '9'
  }

  /** `\s` in a Java pattern without flags: space, tab, newline, vertical tab, form feed, return. */
  predicate IsSpace(c: char) {
    c == ' ' || c == '\t' || c == '\n' || c == 11 as char || c == 12 as char || c == '\r'
  }

  predicate AllDigits(s: string) {
    forall i :: 0 <= i < |s| ==> IsDigit(s[i])
  }

  predicate AllSpaces(s: string) {
    forall i :: 0 <= i < |s| ==> IsSpace(s[i])
  }

  /** The longest prefix of digits, and the rest. */
  function SplitDigits(s: string): (p: (string, string))
    ensures p.0 + p.1 == s && AllDigits(p.0)
    ensures p.1 == [] || !IsDigit(p.1[0])
  {
    if s != [] && IsDigit(s[0]) then
      var (d, rest) := SplitDigits(s[1..]);
      ([s[0]] + d, rest)
    else
      ([], s)
  }

  /** The longest prefix of white space, and the rest. */
  function SplitSpaces(s: string): (p: (string, string))
    ensures p.0 + p.1 == s && AllSpaces(p.0)
    ensures p.1 == [] || !IsSpace(p.1[0])
  {
    if s != [] && IsSpace(s[0]) then
      var (w, rest) := SplitSpaces(s[1..]);
      ([s[0]] + w, rest)
    else
      ([], s)
  }

  /** The maximal digit prefix is the only split of a digit run followed by a non-digit. */
  lemma {:induction false} SplitDigitsOf(a: string, b: string)
    requires AllDigits(a) && (b == [] || !IsDigit(b[0]))
    ensures SplitDigits(a + b) == (a, b)
  {
    if a != [] {
      assert (a + b)[0] == a[0] && (a + b)[1..] == a[1..] + b;
      SplitDigitsOf(a[1..], b);
      assert [a[0]] + a[1..] == a;
    } else {
      assert a + b == b;
    }
  }

  lemma {:induction false} SplitSpacesOf(a: string, b: string)
    requires AllSpaces(a) && (b == [] || !IsSpace(b[0]))
    ensures SplitSpaces(a + b) == (a, b)
  {
    if a != [] {
      assert (a + b)[0] == a[0] && (a + b)[1..] == a[1..] + b;
      SplitSpacesOf(a[1..], b);
      assert [a[0]] + a[1..] == a;
    } else {
      assert a + b == b;
    }
  }

  // ---------------------------------------------------------------- the groups of the pattern

  /** The `[+-]\d+:\d+` zone suffix. */
  datatype Zone = Zone(sign: char, hours: string, minutes: string)

  /** The time group: `\s+`, hour, minute and second digits, optional `\.\d+`, optional zone. */
  datatype TimeText = TimeText(space: string, hour: string, minute: string, second: string,
                               fraction: Option<string>, zone: Option<Zone>)

  /** A whole match: the three date groups and the optional time group. */
  datatype DatetimeText = DatetimeText(year: string, month: string, day: string, time: Option<TimeText>)

  predicate IsNumber(s: string) {
    s != [] && AllDigits(s)
  }

  predicate WellFormedZone(z: Zone) {
    (z.sign == '+' || z.sign == '-') && IsNumber(z.hours) && IsNumber(z.minutes)
  }

  predicate WellFormedTime(t: TimeText) {
    && t.space != [] && AllSpaces(t.space)
    && IsNumber(t.hour) && IsNumber(t.minute) && IsNumber(t.second)
    && (t.fraction.Some? ==> IsNumber(t.fraction.value))
    && (t.zone.Some? ==> WellFormedZone(t.zone.value))
  }

  /** The group values of some match of the pattern. */
  predicate WellFormed(d: DatetimeText) {
    IsNumber(d.year) && IsNumber(d.month) && IsNumber(d.day) && (d.time.Some? ==> WellFormedTime(d.time.value))
  }

  function RenderZone(z: Option<Zone>): string {
    match z
    case None => ""
    case Some(Zone(sign, hours, minutes)) => [sign] + (hours + ([':'] + minutes))
  }

  function RenderFraction(f: Option<string>): string {
    match f
    case None => ""
    case Some(digits) => ['.'] + digits
  }

  function RenderTime(t: Option<TimeText>): string {
    match t
    case None => ""
    case Some(TimeText(space, hour, minute, second, fraction, zone)) =>
      space + (hour + ([':'] + (minute + ([':'] + (second + (RenderFraction(fraction) + RenderZone(zone)))))))
  }

  /** The text that a match with these groups spells. */
  function Render(d: DatetimeText): string {
    d.year + (['-'] + (d.month + (['-'] + (d.day + RenderTime(d.time)))))
  }

  // ---------------------------------------------------------------- the matcher

  function MatchZone(s: string): Option<Zone> {
    if s == [] || (s[0] != '+' && s[0] != '-') then None
    else
      var (hours, r1) := SplitDigits(s[1..]);
      if hours == [] || r1 == [] || r1[0] != ':' then None
      else
        var (minutes, r2) := SplitDigits(r1[1..]);
        if minutes == [] || r2 != [] then None
        else Some(Zone(s[0], hours, minutes))
  }

  /** The optional `\.\d+` and zone suffixes, covering all of `s`. */
  function MatchSuffixes(s: string): Option<(Option<string>, Option<Zone>)> {
    if s == [] then Some((None, None))
    else if s[0] == '.' then
      var (fraction, rest) := SplitDigits(s[1..]);
      if fraction == [] then None
      else if rest == [] then Some((Some(fraction), None))
      else match MatchZone(rest)
        case None => None
        case Some(z) => Some((Some(fraction), Some(z)))
    else match MatchZone(s)
      case None => None
      case Some(z) => Some((None, Some(z)))
  }

  function MatchTime(s: string): Option<TimeText> {
    var (space, r0) := SplitSpaces(s);
    var (hour, r1) := SplitDigits(r0);
    if space == [] || hour == [] || r1 == [] || r1[0] != ':' then None
    else
      var (minute, r2) := SplitDigits(r1[1..]);
      if minute == [] || r2 == [] || r2[0] != ':' then None
      else
        var (second, r3) := SplitDigits(r2[1..]);
        if second == [] then None
        else match MatchSuffixes(r3)
          case None => None
          case Some((fraction, zone)) => Some(TimeText(space, hour, minute, second, fraction, zone))
  }

  /** Whether the whole of `s` matches the pattern, and with which groups. */
  function MatchDatetime(s: string): Option<DatetimeText> {
    var (year, r1) := SplitDigits(s);
    if year == [] || r1 == [] || r1[0] != '-' then None
    else
      var (month, r2) := SplitDigits(r1[1..]);
      if month == [] || r2 == [] || r2[0] != '-' then None
      else
        var (day, r3) := SplitDigits(r2[1..]);
        if day == [] then None
        else if r3 == [] then Some(DatetimeText(year, month, day, None))
        else match MatchTime(r3)
          case None => None
          case Some(t) => Some(DatetimeText(year, month, day, Some(t)))
  }

  lemma MatchZoneSound(s: string)
    ensures MatchZone(s).Some? ==> WellFormedZone(MatchZone(s).value) && RenderZone(MatchZone(s)) == s
  {
    if MatchZone(s).Some? {
      var (hours, r1) := SplitDigits(s[1..]);
      assert [s[0]] + s[1..] == s;
      assert [r1[0]] + r1[1..] == r1;
    }
  }

  lemma MatchSuffixesSound(s: string)
    ensures MatchSuffixes(s).Some? ==>
      var (f, z) := MatchSuffixes(s).value;
      (f.Some? ==> IsNumber(f.value)) && (z.Some? ==> WellFormedZone(z.value))
      && RenderFraction(f) + RenderZone(z) == s
  {
    if MatchSuffixes(s).Some? && s != [] {
      if s[0] == '.' {
        var (fraction, rest) := SplitDigits(s[1..]);
        assert [s[0]] + s[1..] == s;
        if rest != [] {
          MatchZoneSound(rest);
        }
      } else {
        MatchZoneSound(s);
      }
    }
  }

  lemma MatchTimeSound(s: string)
    ensures MatchTime(s).Some? ==> WellFormedTime(MatchTime(s).value) && RenderTime(MatchTime(s)) == s
  {
    if MatchTime(s).Some? {
      var (space, r0) := SplitSpaces(s);
      var (hour, r1) := SplitDigits(r0);
      var (minute, r2) := SplitDigits(r1[1..]);
      var (second, r3) := SplitDigits(r2[1..]);
      assert [r1[0]] + r1[1..] == r1;
      assert [r2[0]] + r2[1..] == r2;
      MatchSuffixesSound(r3);
    }
  }

  /** Whatever the matcher accepts is the rendering of well-formed groups. */
  lemma MatchSound(s: string)
    ensures MatchDatetime(s).Some? ==> WellFormed(MatchDatetime(s).value) && Render(MatchDatetime(s).value) == s
  {
    if MatchDatetime(s).Some? {
      var (year, r1) := SplitDigits(s);
      var (month, r2) := SplitDigits(r1[1..]);
      var (day, r3) := SplitDigits(r2[1..]);
      assert [r1[0]] + r1[1..] == r1;
      assert [r2[0]] + r2[1..] == r2;
      if r3 != [] {
        MatchTimeSound(r3);
      }
    }
  }

  lemma MatchZoneComplete(z: Zone)
    requires WellFormedZone(z)
    ensures MatchZone(RenderZone(Some(z))) == Some(z)
  {
    var s := RenderZone(Some(z));
    assert s[1..] == z.hours + ([':'] + z.minutes);
    SplitDigitsOf(z.hours, [':'] + z.minutes);
    SplitDigitsOf(z.minutes, []);
    assert z.minutes + [] == z.minutes;
  }

  lemma MatchSuffixesComplete(f: Option<string>, z: Option<Zone>)
    requires f.Some? ==> IsNumber(f.value)
    requires z.Some? ==> WellFormedZone(z.value)
    ensures MatchSuffixes(RenderFraction(f) + RenderZone(z)) == Some((f, z))
  {
    var zone := RenderZone(z);
    match f {
      case None =>
        assert RenderFraction(f) + zone == zone;
        if z.Some? {
          MatchZoneComplete(z.value);
          assert zone[0] == z.value.sign;
        }
      case Some(digits) =>
        var s := ['.'] + (digits + zone);
        assert RenderFraction(f) + zone == s;
        assert s[1..] == digits + zone;
        if z.Some? {
          MatchZoneComplete(z.value);
          assert zone[0] == z.value.sign;
          SplitDigitsOf(digits, zone);
        } else {
          assert digits + zone == digits + [];
          SplitDigitsOf(digits, []);
        }
    }
  }

  lemma MatchTimeComplete(t: TimeText)
    requires WellFormedTime(t)
    ensures MatchTime(RenderTime(Some(t))) == Some(t)
  {
    var tail := RenderFraction(t.fraction) + RenderZone(t.zone);
    var afterMinute := [':'] + (t.second + tail);
    var afterHour := [':'] + (t.minute + afterMinute);
    SplitSpacesOf(t.space, t.hour + afterHour);
    SplitDigitsOf(t.hour, afterHour);
    SplitDigitsOf(t.minute, afterMinute);
    MatchSuffixesComplete(t.fraction, t.zone);
    if t.fraction.Some? {
      assert tail[0] == '.';
    } else if t.zone.Some? {
      assert tail[0] == t.zone.value.sign;
    }
    SplitDigitsOf(t.second, tail);
  }

  /** The matcher recovers the groups of every well-formed rendering. */
  lemma MatchComplete(d: DatetimeText)
    requires WellFormed(d)
    ensures MatchDatetime(Render(d)) == Some(d)
  {
    var afterMonth := ['-'] + (d.day + RenderTime(d.time));
    var afterYear := ['-'] + (d.month + afterMonth);
    SplitDigitsOf(d.year, afterYear);
    SplitDigitsOf(d.month, afterMonth);
    SplitDigitsOf(d.day, RenderTime(d.time));
    if d.time.Some? {
      MatchTimeComplete(d.time.value);
      WellFormedTimeStartsWithSpace(d.time.value);
    }
  }

  lemma WellFormedTimeStartsWithSpace(t: TimeText)
    requires WellFormedTime(t)
    ensures RenderTime(Some(t)) != [] && !IsDigit(RenderTime(Some(t))[0])
  {
    assert RenderTime(Some(t))[0] == t.space[0];
  }

  // ---------------------------------------------------------------- trimming

  /** Java's String.trim: drop every character up to U+0020 at both ends. */
  function Trim(s: string): (r: string)
    ensures |r| <= |s|
    ensures r != [] ==> r[0] > ' ' && r[|r| - 1] > ' '
    ensures (forall i :: 0 <= i < |s| ==> s[i] <= ' ') ==> r == []
  {
    TrimTrailing(TrimLeading(s))
  }

  /** Drops the characters up to U+0020 in front; what is kept starts above U+0020. */
  function TrimLeading(s: string): (r: string)
    ensures |r| <= |s| && r == s[|s| - |r|..]
    ensures forall i :: 0 <= i < |s| - |r| ==> s[i] <= ' '
    ensures r != [] ==> r[0] > ' '
  {
    if s != [] && s[0] <= ' ' then TrimLeading(s[1..]) else s
  }

  /** Drops the characters up to U+0020 at the end; what is kept ends above U+0020. */
  function TrimTrailing(s: string): (r: string)
    ensures |r| <= |s| && r == s[..|r|]
    ensures forall i :: |r| <= i < |s| ==> s[i] <= ' '
    ensures r != [] ==> r[|r| - 1] > ' '
  {
    if s != [] && s[|s| - 1] <= ' ' then TrimTrailing(s[..|s| - 1]) else s
  }

  predicate EndsWithDigit(s: string) {
    s != [] && IsDigit(s[|s| - 1])
  }

  lemma EndsWithDigitAfter(a: string, b: string)
    requires EndsWithDigit(b)
    ensures EndsWithDigit(a + b)
  {
    assert (a + b)[|a + b| - 1] == b[|b| - 1];
  }

  lemma RenderEndsWithDigit(d: DatetimeText)
    requires WellFormed(d)
    ensures EndsWithDigit(Render(d))
  {
    var time := RenderTime(d.time);
    match d.time {
      case None =>
        assert d.day + time == d.day;
      case Some(t) =>
        var zone := RenderZone(t.zone);
        var fraction := RenderFraction(t.fraction);
        var last := fraction + zone;
        if t.zone.Some? {
          EndsWithDigitAfter(t.zone.value.hours + [':'], t.zone.value.minutes);
          assert zone == [t.zone.value.sign] + ((t.zone.value.hours + [':']) + t.zone.value.minutes);
          EndsWithDigitAfter([t.zone.value.sign], (t.zone.value.hours + [':']) + t.zone.value.minutes);
          EndsWithDigitAfter(t.second + fraction, zone);
          assert t.second + last == (t.second + fraction) + zone;
        } else if t.fraction.Some? {
          EndsWithDigitAfter(['.'], t.fraction.value);
          EndsWithDigitAfter(t.second, fraction);
          assert last == fraction;
        } else {
          assert t.second + last == t.second;
        }
        EndsWithDigitAfter([':'], t.second + last);
        EndsWithDigitAfter(t.minute, [':'] + (t.second + last));
        EndsWithDigitAfter([':'], t.minute + ([':'] + (t.second + last)));
        EndsWithDigitAfter(t.hour, [':'] + (t.minute + ([':'] + (t.second + last))));
        EndsWithDigitAfter(t.space, t.hour + ([':'] + (t.minute + ([':'] + (t.second + last)))));
        EndsWithDigitAfter(d.day, time);
    }
    EndsWithDigitAfter(['-'], d.day + time);
    EndsWithDigitAfter(d.month, ['-'] + (d.day + time));
    EndsWithDigitAfter(['-'], d.month + (['-'] + (d.day + time)));
    EndsWithDigitAfter(d.year, ['-'] + (d.month + (['-'] + (d.day + time))));
  }

  /** A rendering begins and ends with a digit, so trimming leaves it alone. */
  lemma TrimRender(d: DatetimeText)
    requires WellFormed(d)
    ensures Trim(Render(d)) == Render(d)
  {
    RenderEndsWithDigit(d);
    assert Render(d)[0] == d.year[0];
  }

  // ---------------------------------------------------------------- numbers

  /** The value of a string of decimal digits. */
  function DigitsValue(s: string): nat
    requires AllDigits(s)
  {
    if s == [] then 0 else DigitsValue(s[..|s| - 1]) * 10 + (s[|s| - 1] as int - '0' as int)
  }

  /** Java's Long.parseLong on a string of digits: its value, or a NumberFormatException
      (None) when the value does not fit in a `long`. */
  function ParseLong(s: string): (r: Option<Long>)
    requires IsNumber(s)
    ensures r.Some? <==> DigitsValue(s) <= LONG_MAX
    ensures r.Some? ==> r.value == DigitsValue(s)
  {
    var v := DigitsValue(s);
    if v <= LONG_MAX then Some(v) else None
  }

  /** The decimal form of a natural number, as the source's callers write it. */
  function Show(n: nat): string {
    if n < 10 then [('0' as int + n) as char] else Show(n / 10) + [('0' as int + n % 10) as char]
  }

  lemma {:induction false} ShowValue(n: nat)
    ensures IsNumber(Show(n)) && DigitsValue(Show(n)) == n
  {
    if n >= 10 {
      ShowValue(n / 10);
      var s := Show(n);
      assert s[..|s| - 1] == Show(n / 10);
    }
  }

  /** Long.parseLong reads back the decimal text of every `long` and rejects the text of
      anything larger. */
  lemma ParseLongShow(n: nat)
    ensures IsNumber(Show(n))
    ensures ParseLong(Show(n)) == if n <= LONG_MAX then Some(n) else None
  {
    ShowValue(n);
  }

  predicate AllZeros(z: string) {
    forall i :: 0 <= i < |z| ==> z[i] == '0'
  }

  lemma {:induction false} ZerosValue(z: string)
    requires AllZeros(z)
    ensures AllDigits(z) && DigitsValue(z) == 0
  {
    if z != [] {
      ZerosValue(z[..|z| - 1]);
    }
  }

  lemma {:induction false} LeadingZerosValue(z: string, s: string)
    requires AllZeros(z) && AllDigits(s)
    ensures AllDigits(z + s) && DigitsValue(z + s) == DigitsValue(s)
    decreases |s|
  {
    ZerosValue(z);
    if s == [] {
      assert z + s == z;
    } else {
      var t := z + s;
      assert t[..|t| - 1] == z + s[..|s| - 1];
      LeadingZerosValue(z, s[..|s| - 1]);
    }
  }

  /** Leading zeros do not change what Long.parseLong reads, so "007" is 7 and an overlong
      run of zeros in front of a `long` is still accepted. */
  lemma ParseLongLeadingZeros(z: string, s: string)
    requires AllZeros(z) && IsNumber(s)
    ensures IsNumber(z + s) && ParseLong(z + s) == ParseLong(s)
  {
    LeadingZerosValue(z, s);
  }

  // ---------------------------------------------------------------- parseDatetime

  /** InvalidDateFormatException("datetime", st). */
  datatype InvalidDateFormat = InvalidDateFormat(kind: string, text: string)

  /** The six field strings that are parsed: a date-only match reads as midnight. */
  function FieldTexts(d: DatetimeText): seq<string> {
    match d.time
    case None => [d.year, d.month, d.day, "0", "0", "0"]
    case Some(t) => [d.year, d.month, d.day, t.hour, t.minute, t.second]
  }

  function ParseDatetime(st: string): (r: Result<Long, InvalidDateFormat>)
    ensures r.Err? ==> r.error == InvalidDateFormat("datetime", st)
  {
    MatchSound(Trim(st));
    match MatchDatetime(Trim(st))
    case None => Err(InvalidDateFormat("datetime", st))
    case Some(d) => ParseFields(d, st)
  }

  /** Long.parseLong of the six field strings of a match, packed as encodeDatetime(long[]) does. */
  function ParseFields(d: DatetimeText, st: string): Result<Long, InvalidDateFormat>
    requires WellFormed(d)
  {
    var f := FieldTexts(d);
    var year, month, day := ParseLong(f[0]), ParseLong(f[1]), ParseLong(f[2]);
    var hour, minute, second := ParseLong(f[3]), ParseLong(f[4]), ParseLong(f[5]);
    if year.None? || month.None? || day.None? || hour.None? || minute.None? || second.None? then
      Err(InvalidDateFormat("datetime", st))
    else
      Ok(EncodeDatetime([year.value, month.value, day.value, hour.value, minute.value, second.value]))
  }

  /** The field values that a well-formed match denotes. */
  function FieldValues(d: DatetimeText): seq<nat>
    requires WellFormed(d)
  {
    var f := FieldTexts(d);
    [DigitsValue(f[0]), DigitsValue(f[1]), DigitsValue(f[2]), DigitsValue(f[3]), DigitsValue(f[4]), DigitsValue(f[5])]
  }

  /** Input that does not match the pattern after trimming is rejected, and whatever is
      accepted is the trimmed rendering of well-formed groups. */
  lemma ParseAcceptsExactlyThePattern(st: string)
    ensures MatchDatetime(Trim(st)).None? ==> ParseDatetime(st) == Err(InvalidDateFormat("datetime", st))
    ensures ParseDatetime(st).Ok? ==> exists d :: WellFormed(d) && Render(d) == Trim(st)
  {
    MatchSound(Trim(st));
  }

  /** The fields of a well-formed match are parsed as their values when each fits in a `long`. */
  lemma ParseFieldsValue(d: DatetimeText, st: string)
    requires WellFormed(d)
    ensures var v := FieldValues(d);
      ParseFields(d, st) ==
        if forall i :: 0 <= i < 6 ==> v[i] <= LONG_MAX then Ok(EncodeDatetime(v)) else Err(InvalidDateFormat("datetime", st))
  {
    assert DigitsValue("0") == 0;
  }

  /** A well-formed rendering parses to the DATETIME packing of its field values when each
      fits in a `long`. */
  lemma ParseRendering(d: DatetimeText)
    requires WellFormed(d)
    ensures var v := FieldValues(d);
      ParseDatetime(Render(d)) ==
        if forall i :: 0 <= i < 6 ==> v[i] <= LONG_MAX then Ok(EncodeDatetime(v)) else Err(InvalidDateFormat("datetime", Render(d)))
  {
    var st := Render(d);
    TrimRender(d);
    MatchComplete(d);
    ParseFieldsValue(d, st);
  }

  lemma DateOnlyIsMidnight(d: DatetimeText)
    requires WellFormed(d) && d.time.None?
    ensures FieldValues(d)[HOUR_INDEX..] == [0, 0, 0]
  {
    assert DigitsValue("0") == 0;
  }

  /** The fractional-second and zone suffixes are read and then ignored. */
  lemma ParseIgnoresSuffixes(d: DatetimeText)
    requires WellFormed(d) && d.time.Some?
    ensures var bare := d.(time := Some(d.time.value.(fraction := None, zone := None)));
      ParseDatetime(Render(d)) == ParseDatetime(Render(bare)) ||
      (ParseDatetime(Render(d)).Err? && ParseDatetime(Render(bare)).Err?)
  {
    var bare := d.(time := Some(d.time.value.(fraction := None, zone := None)));
    ParseRendering(d);
    ParseRendering(bare);
    assert FieldValues(d) == FieldValues(bare);
  }

  /** The plain decimal text "y-m-d h:mi:s" of six `long` fields parses to the DATETIME
      packing of those fields (which DatetimeRoundTrip decodes back when they are in range). */
  lemma ParseFormatted(ymd: seq<nat>)
    requires |ymd| == 6 && forall i :: 0 <= i < 6 ==> ymd[i] <= LONG_MAX
    ensures ParseDatetime(Formatted(ymd)) == Ok(EncodeDatetime(ymd))
  {
    ParseFormattedText(ymd);
    FormattedIsRender(ymd);
  }

  lemma ParseFormattedText(ymd: seq<nat>)
    requires |ymd| == 6 && forall i :: 0 <= i < 6 ==> ymd[i] <= LONG_MAX
    ensures WellFormed(FormattedText(ymd))
    ensures ParseDatetime(Render(FormattedText(ymd))) == Ok(EncodeDatetime(ymd))
  {
    ShowValue(ymd[0]);
    ShowValue(ymd[1]);
    ShowValue(ymd[2]);
    ShowValue(ymd[3]);
    ShowValue(ymd[4]);
    ShowValue(ymd[5]);
    var d := FormattedText(ymd);
    assert WellFormed(d);
    var v := FieldValues(d);
    assert v == ymd;
    ParseRendering(d);
  }

  /** "y-m-d h:mi:s" in plain decimal, without padding. */
  function Formatted(ymd: seq<nat>): string
    requires |ymd| == 6
  {
    Show(ymd[0]) + "-" + Show(ymd[1]) + "-" + Show(ymd[2]) + " " + Show(ymd[3]) + ":" + Show(ymd[4]) + ":" + Show(ymd[5])
  }

  function FormattedText(ymd: seq<nat>): DatetimeText
    requires |ymd| == 6
  {
    DatetimeText(Show(ymd[0]), Show(ymd[1]), Show(ymd[2]),
      Some(TimeText(" ", Show(ymd[3]), Show(ymd[4]), Show(ymd[5]), None, None)))
  }

  lemma Assoc(a: string, b: string, c: string)
    ensures (a + b) + c == a + (b + c)
  {
  }

  lemma FormattedIsRender(ymd: seq<nat>)
    requires |ymd| == 6
    ensures Render(FormattedText(ymd)) == Formatted(ymd)
  {
    var y, mo, d, h, mi, s := Show(ymd[0]), Show(ymd[1]), Show(ymd[2]), Show(ymd[3]), Show(ymd[4]), Show(ymd[5]);
    var time := " " + (h + (":" + (mi + (":" + s))));
    assert RenderTime(FormattedText(ymd).time) == time by {
      assert s + (RenderFraction(None) + RenderZone(None)) == s;
    }
    var f := Formatted(ymd);
    var f1 := y + "-" + mo + "-" + d;
    assert f1 == y + ("-" + (mo + ("-" + d)));
    var f2 := f1 + " " + h + ":" + mi + ":" + s;
    assert f == f2;
    calc {
      f2;
      f1 + " " + h + ":" + mi + ":" + s;
      { Assoc(f1 + " " + h + ":" + mi, ":", s); }
      f1 + " " + h + ":" + mi + (":" + s);
      { Assoc(f1 + " " + h + ":", mi, ":" + s); }
      f1 + " " + h + ":" + (mi + (":" + s));
      { Assoc(f1 + " " + h, ":", mi + (":" + s)); }
      f1 + " " + h + (":" + (mi + (":" + s)));
      { Assoc(f1 + " ", h, ":" + (mi + (":" + s))); }
      f1 + " " + (h + (":" + (mi + (":" + s))));
      { Assoc(f1, " ", h + (":" + (mi + (":" + s)))); }
      f1 + time;
      y + ("-" + (mo + ("-" + d))) + time;
      { Assoc(y, "-" + (mo + ("-" + d)), time); }
      y + (("-" + (mo + ("-" + d))) + time);
      { Assoc("-", mo + ("-" + d), time); Assoc(mo, "-" + d, time); Assoc("-", d, time); }
      y + ("-" + (mo + ("-" + (d + time))));
    }
  }

  /** Date-only text parses as midnight of that day. */
  lemma ParseDateOnly(y: nat, m: nat, day: nat)
    requires y <= LONG_MAX && m <= LONG_MAX && day <= LONG_MAX
    ensures ParseDatetime(Show(y) + "-" + Show(m) + "-" + Show(day)) == Ok(EncodeDatetime([y, m, day, 0, 0, 0]))
  {
    var d := DatetimeText(Show(y), Show(m), Show(day), None);
    ParseDateOnlyText(y, m, day);
    assert Render(d) == Show(y) + "-" + Show(m) + "-" + Show(day) by {
      assert Show(day) + RenderTime(None) == Show(day);
      Assoc(Show(y) + "-" + Show(m), "-", Show(day));
      Assoc(Show(y) + "-", Show(m), "-" + Show(day));
      Assoc(Show(y), "-", Show(m) + ("-" + Show(day)));
    }
  }

  lemma ParseDateOnlyRendering(d: DatetimeText, y: nat, m: nat, day: nat)
    requires y <= LONG_MAX && m <= LONG_MAX && day <= LONG_MAX
    requires WellFormed(d) && d.time.None?
    requires DigitsValue(d.year) == y && DigitsValue(d.month) == m && DigitsValue(d.day) == day
    ensures ParseDatetime(Render(d)) == Ok(EncodeDatetime([y, m, day, 0, 0, 0]))
  {
    DateOnlyIsMidnight(d);
    var v := FieldValues(d);
    var w: seq<Long> := [y, m, day, 0, 0, 0];
    assert v[..HOUR_INDEX] == [y, m, day];
    assert v == v[..HOUR_INDEX] + v[HOUR_INDEX..] == w;
    assert forall i :: 0 <= i < 6 ==> v[i] <= LONG_MAX;
    ParseRendering(d);
    assert ParseDatetime(Render(d)) == Ok(EncodeDatetime(w));
  }

  lemma ParseDateOnlyText(y: nat, m: nat, day: nat)
    requires y <= LONG_MAX && m <= LONG_MAX && day <= LONG_MAX
    ensures ParseDatetime(Render(DatetimeText(Show(y), Show(m), Show(day), None))) == Ok(EncodeDatetime([y, m, day, 0, 0, 0]))
  {
    ShowValue(y);
    ShowValue(m);
    ShowValue(day);
    var d := DatetimeText(Show(y), Show(m), Show(day), None);
    ParseDateOnlyRendering(d, y, m, day);
  }

  /** Text that is no datetime at all is rejected with the text itself in the error. */
  lemma ParseExampleGarbage()
    ensures ParseDatetime("garbage") == Err(InvalidDateFormat("datetime", "garbage"))
  {
    assert Trim("garbage") == "garbage";
    assert SplitDigits("garbage") == ([], "garbage");
  }
}
