# UnionAll_Default and the MySQL date/time codecs, in Dafny

This project models two parts of the FoundationDB SQL layer and proves properties of them.

**The concatenating union operator, `UnionAll_Default`.** The model has three parts.

- **Row-type unification.** `rowType` returns the same object for identical input types and rejects types with different field counts. Otherwise `rowTypeNew` merges the types field by field, and a field whose type is unknown (null) takes the other side's type.
- **The `Execution` cursor.** It is a class with the source's fields: `idle`, `destroyed`, `inputOperatorsIndex`, `currentCursor` and `currentInputRowType`.
  - The child cursors are an `array<ChildCursor>`. Each child is an abstract finite stream of rows with the engine's idle/active/destroyed lifecycle.
  - `open`, `next`, `close`, `destroy`, `nextBindings` and `nextCursorFirstRow` are methods that change those fields and that array.
  - Each method is specified against `Remaining()`, the rows still to come, and `Stream`, the rows of the inputs concatenated in order.
- **Row wrapping.** `wrapped` either passes a row on unchanged or wraps it in a `MasqueradingRow`. That row reports the output type and forwards every `value(i)` to the row it wraps.

A method, `RunUnionAll`, opens a cursor and calls `next()` until it returns null. Its contract ties the whole output to `Expected`, a function of the concatenated inputs. Lemmas then prove the outcome of a run:
- the output is input 1's rows followed by input 2's, in order;
- every output row has the output type, with its values unchanged;
- a run fails exactly when some row's type is not its input's declared type.

**`MDatetimes`.** The model covers:
- the packed integer encodings of DATE (`y*512 + m*32 + d`), DATETIME (decimal `YYYYMMDDhhmmss`) and TIME (`hhmmss`);
- `fromDate`, which reads a decimal `YYYYMMDD`;
- the Gregorian `getLastDay` and the validity checks built on it;
- the bounds-checked lookup of month and weekday names;
- `parseDatetime`.

Java's truncating `/` and `%` and its `int`/`long` overflow are written out in the module `JavaInts`, so every codec is stated for all `long` inputs, negative ones included. `parseDatetime` matches its input against a regular expression; here a hand-written parser with the same grammar stands in for it, and lemmas prove the parser accepts exactly that grammar.

Files:
- `wrappers.dfy`: Option and Result.
- `java_ints.dfy`: Java integer arithmetic.
- `rows.dfy`: row types and rows, including MasqueradingRow.
- `cursors.dfy`: the abstract child cursor.
- `union_all.dfy`: the operator.
- `mdatetimes.dfy`: the codecs, the calendar rules and the name lookups.
- `datetime_parse.dfy`: parseDatetime.

Where the model departs from the source:
- **Identity is `==`.** A `RowType` carries a `typeId` that stands for its object identity, so datatype equality plays the part of Java's reference `==`. The source compares with `equals` in `wrapped`; the model assumes `RowType.equals` is identity.
- **New type ids are parameters.** The identity of the row type that `rowTypeNew` builds through `schema().newValuesType` is the parameter `newTypeId`. Because `newValuesType` returns a new object, `NewUnionAll` requires `newTypeId` to differ from both input types' identities; `UnifiedIsNew` proves that the output type of two different inputs is then neither of them.
- **Exceptions are error values.** `IllegalArgumentException` from `notSameShape` is `Err(NotSameShape(..))`, `WrongRowTypeException` is `Err(WrongRowType(..))` and `InvalidDateFormatException` is `Err(InvalidDateFormat(..))`.
- **Long.parseLong is `ParseLong`.** On a string of ASCII digits it gives the digits' value when that fits a `long`, and a NumberFormatException (None) otherwise; the pattern only ever hands it digit strings.
- **Bad-value reports are returned.** The report that `getVal` hands to `context.reportBadValue` is part of the returned `NameLookup`.

## Model

UnionAll_Default.java is `src/main/java/com/foundationdb/qp/operator/UnionAll_Default.java`; MDatetimes.java is `src/main/java/com/akiban/server/types3/mcompat/mtypes/MDatetimes.java`.

| member | source | states |
|---|---|---|
| UnionAllDefault.UnionRowType | src/main/java/com/foundationdb/qp/operator/UnionAll_Default.java:119-125 | rowType's result is the reference unification `Unified`: the same type, the shape error, or rowTypeNew's result |
| UnionAllDefault.RowTypeNew | src/main/java/com/foundationdb/qp/operator/UnionAll_Default.java:127-142 | the array loop succeeds exactly when every field pair is compatible, gives the merged field list under the new type, and otherwise fails with NotSameShape of the two inputs |
| UnionAllDefault.UnifiedSelf | src/main/java/com/foundationdb/qp/operator/UnionAll_Default.java:119-121 | a type unified with itself is that same type, and no new type is built |
| UnionAllDefault.UnifiedArity | src/main/java/com/foundationdb/qp/operator/UnionAll_Default.java:122-123 | different field counts give the not-same-shape error; a unified type has the inputs' field count |
| UnionAllDefault.UnifiedFieldwise | src/main/java/com/foundationdb/qp/operator/UnionAll_Default.java:128-141 | unification fails exactly when some position holds two different known types. On success each field is the common type, or the other side's type where one side is unknown |
| UnionAllDefault.UnifiedOk | src/main/java/com/foundationdb/qp/operator/UnionAll_Default.java:119-142 | unification succeeds exactly for same-shaped types, and its fields are then the merged fields, in the identity case too |
| UnionAllDefault.MergedFieldsAt | src/main/java/com/foundationdb/qp/operator/UnionAll_Default.java:129-140 | position i of the merged list is the merge of the two fields at i |
| UnionAllDefault.UnifiedCommutes | src/main/java/com/foundationdb/qp/operator/UnionAll_Default.java:127-142 | swapping the inputs changes neither success nor the resulting fields |
| UnionAllDefault.MergeFieldAssociates | src/main/java/com/foundationdb/qp/operator/UnionAll_Default.java:132-139 | the per-field merge is associative, with failures in the same places |
| UnionAllDefault.UnifiedAssociates | src/main/java/com/foundationdb/qp/operator/UnionAll_Default.java:127-142 | unifying three types in either grouping fails or succeeds together, with the same fields |
| UnionAllDefault.UnifiedIsNew | src/main/java/com/foundationdb/qp/operator/UnionAll_Default.java:141 | with an identity unlike both inputs', two different types that unify give a type with that new identity, equal to neither input |
| UnionAllDefault.NewUnionAll | src/main/java/com/foundationdb/qp/operator/UnionAll_Default.java:105-115 | the operator is built exactly when its two input types unify; its output type is the unified type, and otherwise construction fails with the unification's error; for two different input types the output type is neither of them |
| UnionAllDefault.Wrapped | src/main/java/com/foundationdb/qp/operator/UnionAll_Default.java:365-375 | a row not of the current input type is a WrongRowType error; a row whose input type is the output type is returned itself; otherwise the row is wrapped. Either way the result reports the output type and carries the input row's values |
| Rows.MasqueradingRowDelegates | src/main/java/com/foundationdb/qp/operator/UnionAll_Default.java:400-434 | a MasqueradingRow reports the type it was given, not its delegate's, and value(i) is the delegate's value(i) at every index |
| Rows.Row.Value | src/main/java/com/foundationdb/qp/operator/UnionAll_Default.java:431-434 | value(index) reads through any chain of delegation to the values of the row underneath |
| UnionAllDefault.StreamStep | src/main/java/com/foundationdb/qp/operator/UnionAll_Default.java:346-363 | the rows from input k on are input k's rows followed by the rest, and an empty input contributes nothing |
| UnionAllDefault.Execution.constructor | src/main/java/com/foundationdb/qp/operator/UnionAll_Default.java:329-338 | a new cursor is idle and before the first input, with one idle child per input, each at its first row and fed from the shared bindings |
| UnionAllDefault.Execution.Open | src/main/java/com/foundationdb/qp/operator/UnionAll_Default.java:195-208 | legal only when idle, it leaves the cursor active with every row of every input still to come, in order. Every child is opened when openBoth is set, and none otherwise |
| UnionAllDefault.Execution.NextCursorFirstRow | src/main/java/com/foundationdb/qp/operator/UnionAll_Default.java:346-363 | returns the first row of the next input that has one, and that input becomes the current one with its type remembered. Every input before it is left closed, the empty ones it passed included. When no row is left it returns None, with every child closed and the index past the last input |
| UnionAllDefault.Execution.FirstRowOf | src/main/java/com/foundationdb/qp/operator/UnionAll_Default.java:348-355 | opens child k unless openBoth did, and returns its first row; an empty child is closed again, and no other child changes |
| UnionAllDefault.Execution.BecomeCurrent | src/main/java/com/foundationdb/qp/operator/UnionAll_Default.java:357-359 | once input k has yielded its first row, k is the current input with its declared type, and the rest of its rows and of the later inputs are what remains |
| UnionAllDefault.Execution.PullCurrent | src/main/java/com/foundationdb/qp/operator/UnionAll_Default.java:224-226 | the current input's next row, or, when it has none, the current child closed, ready to advance |
| UnionAllDefault.Execution.FetchRow | src/main/java/com/foundationdb/qp/operator/UnionAll_Default.java:219-229 | the first row still to come, with its input's type, the rest remaining; or None with everything drained when nothing remains |
| UnionAllDefault.Execution.PullOrAdvance | src/main/java/com/foundationdb/qp/operator/UnionAll_Default.java:223-228 | with a current input: its next row, or else the first row of the next non-empty input, as FetchRow states |
| UnionAllDefault.Execution.Next | src/main/java/com/foundationdb/qp/operator/UnionAll_Default.java:210-246 | the first remaining row, wrapped for the output type (or wrapped's error), and the cursor stays active with the rest remaining. Once nothing remains it returns null, is idle, has index -1, no current cursor or type, and every child closed |
| UnionAllDefault.Execution.Close | src/main/java/com/foundationdb/qp/operator/UnionAll_Default.java:248-263 | from idle, active or drained: every child closed (with openBoth, those after the index too), index -1, no current cursor or type, idle |
| UnionAllDefault.Execution.BecomeIdle | src/main/java/com/foundationdb/qp/operator/UnionAll_Default.java:260-262 | with every child closed, resets the index and the current type and makes the cursor idle |
| UnionAllDefault.Execution.Destroy | src/main/java/com/foundationdb/qp/operator/UnionAll_Default.java:265-275 | closes the cursor and destroys every child; afterwards isDestroyed holds and isIdle and isActive do not |
| UnionAllDefault.Execution.NextBindings | src/main/java/com/foundationdb/qp/operator/UnionAll_Default.java:303-311 | the shared bindings cursor's next activation (None at its end). Every child moves to the same activation, and the rows still to come do not change |
| UnionAllDefault.Execution.AdvanceChildren | src/main/java/com/foundationdb/qp/operator/UnionAll_Default.java:306-309 | every child's next activation is the one the shared cursor returned, which is the source's assert, and every child advances |
| UnionAllDefault.Execution.IsIdle | src/main/java/com/foundationdb/qp/operator/UnionAll_Default.java:277-281 | `!destroyed && idle`; LifecycleStates proves it excludes the other two states |
| UnionAllDefault.Execution.IsActive | src/main/java/com/foundationdb/qp/operator/UnionAll_Default.java:283-287 | `!destroyed && !idle`; Open makes it hold, Next keeps it until the rows run out, and LifecycleStates proves it excludes the other two states |
| UnionAllDefault.Execution.IsDestroyed | src/main/java/com/foundationdb/qp/operator/UnionAll_Default.java:289-293 | `destroyed`; Destroy makes it hold, and LifecycleStates proves it excludes idle and active |
| UnionAllDefault.LifecycleStates | src/main/java/com/foundationdb/qp/operator/UnionAll_Default.java:277-293 | a cursor is in exactly one of the states idle, active and destroyed |
| UnionAllDefault.ExpectedStep | src/main/java/com/foundationdb/qp/operator/UnionAll_Default.java:230-236 | the outcome of a run is what next() makes of its first row, followed by the outcome of the rest |
| UnionAllDefault.RunUnionAll | src/main/java/com/foundationdb/qp/operator/UnionAll_Default.java:56-60 | opening a cursor and calling next() until null gives `Expected` of the inputs' rows concatenated in order |
| UnionAllDefault.ExpectedRows | src/main/java/com/foundationdb/qp/operator/UnionAll_Default.java:365-375 | a run fails exactly when some row's type is not its input's declared type. Otherwise it yields one row per input row, in order, each with the output type and the same values, and the very same row where the input type is the output type |
| UnionAllDefault.StreamIndexed | src/main/java/com/foundationdb/qp/operator/UnionAll_Default.java:111-112 | the rows of the operator's two inputs are input 1's followed by input 2's |
| UnionAllDefault.UnionOfTwo | src/main/java/com/foundationdb/qp/operator/UnionAll_Default.java:56-60 | for well-typed inputs the run succeeds with \|rows1\| + \|rows2\| rows of the output type whose values are those of rows1 then rows2, in order |
| MDatetimes.DecodeDate | src/main/java/com/akiban/server/types3/mcompat/mtypes/MDatetimes.java:214-222 | three fields, month in (-16, 16) and day in (-32, 32), all non-negative for a non-negative value |
| MDatetimes.EncodeDate | src/main/java/com/akiban/server/types3/mcompat/mtypes/MDatetimes.java:224-227 | the DATE packing `y*512 + m*32 + d` narrowed to an int; DateRoundTrip and DateEncodeDecode prove it and DecodeDate inverse to each other |
| MDatetimes.DateRoundTrip | src/main/java/com/akiban/server/types3/mcompat/mtypes/MDatetimes.java:214-227 | decodeDate(encodeDate(ymd)) == ymd for y >= 0, 0 <= m < 16, 0 <= d < 32 whenever the packed value fits an int |
| MDatetimes.DateEncodeDecode | src/main/java/com/akiban/server/types3/mcompat/mtypes/MDatetimes.java:214-227 | encodeDate(decodeDate(v)) is v narrowed to an int, for every long v |
| MDatetimes.FromDate | src/main/java/com/akiban/server/types3/mcompat/mtypes/MDatetimes.java:229-240 | six fields, midnight, month and day in (-100, 100) |
| MDatetimes.FromDateDecimal | src/main/java/com/akiban/server/types3/mcompat/mtypes/MDatetimes.java:229-240 | the decimal YYYYMMDD of a year, month and day in range reads back as those fields at midnight |
| MDatetimes.FromDateToDatetime | src/main/java/com/akiban/server/types3/mcompat/mtypes/MDatetimes.java:229-240 | encodeDatetime(fromDate(v)) is v scaled to midnight, in long arithmetic, for every v |
| MDatetimes.FromDateIsNotDecodeDate | src/main/java/com/akiban/server/types3/mcompat/mtypes/MDatetimes.java:214-240 | the two date packings differ: the DATE code of 2013-01-01 read by fromDate is 103-06-89 |
| MDatetimes.DecodeDatetime | src/main/java/com/akiban/server/types3/mcompat/mtypes/MDatetimes.java:321-332 | six fields, month to second each in (-100, 100), all non-negative for a non-negative value |
| MDatetimes.EncodeDatetime | src/main/java/com/akiban/server/types3/mcompat/mtypes/MDatetimes.java:311-319 | the decimal YYYYMMDDhhmmss packing in long arithmetic; DatetimeRoundTrip and DatetimeEncodeDecode prove it and DecodeDatetime inverse to each other |
| MDatetimes.DatetimeRoundTrip | src/main/java/com/akiban/server/types3/mcompat/mtypes/MDatetimes.java:311-332 | decodeDatetime(encodeDatetime(v)) == v for a non-negative year and month to second in [0, 100) whenever the packing fits a long |
| MDatetimes.DatetimeEncodeDecode | src/main/java/com/akiban/server/types3/mcompat/mtypes/MDatetimes.java:311-332 | encodeDatetime(decodeDatetime(v)) == v for every long, negative ones included |
| MDatetimes.DecodeTime | src/main/java/com/akiban/server/types3/mcompat/mtypes/MDatetimes.java:344-355 | the date part is always 1970-01-01; minute and second are in (-100, 100) |
| MDatetimes.EncodeTime | src/main/java/com/akiban/server/types3/mcompat/mtypes/MDatetimes.java:373-378 | the decimal hhmmss packing of fields 3..5 in long arithmetic; TimeRoundTrip and TimeEncodeDecode prove it and DecodeTime inverse to each other |
| MDatetimes.TimeRoundTrip | src/main/java/com/akiban/server/types3/mcompat/mtypes/MDatetimes.java:344-378 | decodeTime(encodeTime(v)) is 1970-01-01 followed by v's hour, minute and second, for hour >= 0 and minute and second in [0, 100), whenever the packing hhmmss fits a long |
| MDatetimes.TimeRoundTripNeedsFit | src/main/java/com/akiban/server/types3/mcompat/mtypes/MDatetimes.java:373-378 | the fit is needed: an hour whose packing overflows a long encodes as a negative value and decodes as a different hour |
| MDatetimes.TimeEncodeDecode | src/main/java/com/akiban/server/types3/mcompat/mtypes/MDatetimes.java:344-378 | encodeTime(decodeTime(v)) == v for every long |
| MDatetimes.LeapRule | src/main/java/com/akiban/server/types3/mcompat/mtypes/MDatetimes.java:441 | the test on Java remainders is the Gregorian leap-year rule, for negative years too |
| MDatetimes.GetLastDay | src/main/java/com/akiban/server/types3/mcompat/mtypes/MDatetimes.java:436-459 | -1 or 28..31; positive exactly for months 0..12 (after the int cast); 29 exactly for February of a leap year, and 28 for February of a common year |
| MDatetimes.LastDayMatchesTable | src/main/java/com/akiban/server/types3/mcompat/mtypes/MDatetimes.java:442-455 | outside February, months 0..12 have their common-year length (30 for 4, 6, 9, 11; 31 for the others, month 0 included) |
| MDatetimes.YearLength | src/main/java/com/akiban/server/types3/mcompat/mtypes/MDatetimes.java:436-459 | months 1..12 add up to 366 days in a leap year and to 365 otherwise |
| MDatetimes.LastDayCycle | src/main/java/com/akiban/server/types3/mcompat/mtypes/MDatetimes.java:436-459 | the result repeats every 400 years |
| MDatetimes.ValidTimeRoundTrip | src/main/java/com/akiban/server/types3/mcompat/mtypes/MDatetimes.java:423-428 | a time that passes isValidHrMinSec packs into 0..235959 and decodes back |
| MDatetimes.IsValidHrMinSec | src/main/java/com/akiban/server/types3/mcompat/mtypes/MDatetimes.java:423-428 | hour 0..23, minute 0..59 and second 0..59; ValidTimeRoundTrip proves such a time survives the TIME packing |
| MDatetimes.IsValidDayMonth | src/main/java/com/akiban/server/types3/mcompat/mtypes/MDatetimes.java:430-434 | the month's last day is positive and the day is at most that day, with no lower bound on the day; ValidDatetimeMeans and ValidDatetimeExamples spell it out |
| MDatetimes.IsValidDatetime | src/main/java/com/akiban/server/types3/mcompat/mtypes/MDatetimes.java:418-421 | both checks; ValidDatetimeMeans states it field by field and ValidDatetimeRoundTrip proves such a datetime survives the DATETIME packing |
| MDatetimes.ValidDatetimeMeans | src/main/java/com/akiban/server/types3/mcompat/mtypes/MDatetimes.java:418-434 | isValidDatetime holds exactly when the narrowed month is 0..12, the day is at most that month's last day, hour is 0..23 and minute and second are 0..59 |
| MDatetimes.ValidDatetimeExamples | src/main/java/com/akiban/server/types3/mcompat/mtypes/MDatetimes.java:418-434 | a negative day and month 0 pass (no lower bound on the day); 2001-02-29, 1900-02-29, month 13 and hour 24 fail; 2000-02-29 passes |
| MDatetimes.ValidDatetimeRoundTrip | src/main/java/com/akiban/server/types3/mcompat/mtypes/MDatetimes.java:418-434 | a valid datetime with a non-negative year and day, a month in 0..INT_MAX and a packing that fits a long survives the DATETIME packing |
| MDatetimes.ValidDatetimeMonthWraps | src/main/java/com/akiban/server/types3/mcompat/mtypes/MDatetimes.java:418-438 | the month bound is needed: getLastDay narrows the month to an int, so month 2^32 + 1 passes as January but does not survive the packing |
| MDatetimes.ValidDatetimeNegativeFields | src/main/java/com/akiban/server/types3/mcompat/mtypes/MDatetimes.java:430-434 | the sign bounds are needed: 2000-01--1 and -1-01-01 pass the checks but decode to other fields |
| MDatetimes.GetVal | src/main/java/com/akiban/server/types3/mcompat/mtypes/MDatetimes.java:104-125 | out of [min, max] gives null with the out-of-range report; a missing locale gives null with the unsupported-locale report; a name is returned exactly when the index is in range and in the table, and it is the table entry |
| MDatetimes.GetMonthName | src/main/java/com/akiban/server/types3/mcompat/mtypes/MDatetimes.java:84-87 | getVal over the month table with index numericRep - 1 in int arithmetic and range 0..11; MonthNameShift and MonthNameMinimum state its outcomes |
| MDatetimes.GetShortMonthName | src/main/java/com/akiban/server/types3/mcompat/mtypes/MDatetimes.java:89-92 | the same lookup over the short month table; ShortNameLookups proves it gives what GetMonthName gives over that table |
| MDatetimes.GetWeekDayName | src/main/java/com/akiban/server/types3/mcompat/mtypes/MDatetimes.java:94-97 | getVal over the weekday table with the number itself as index and range 0..6; WeekDayNameDirect states its outcomes |
| MDatetimes.GetShortWeekDayName | src/main/java/com/akiban/server/types3/mcompat/mtypes/MDatetimes.java:99-102 | the same lookup over the short weekday table; ShortNameLookups proves it agrees with GetWeekDayName over that table, except that an out-of-range number is reported as "weekdays" |
| MDatetimes.MonthNameShift | src/main/java/com/akiban/server/types3/mcompat/mtypes/MDatetimes.java:84-87 | months 1..12 name entries 0..11; any other month is reported out of range with the shifted value |
| MDatetimes.MonthNameMinimum | src/main/java/com/akiban/server/types3/mcompat/mtypes/MDatetimes.java:84-87 | the int subtraction wraps month INT_MIN to INT_MAX, which is still rejected |
| MDatetimes.ShortNameLookups | src/main/java/com/akiban/server/types3/mcompat/mtypes/MDatetimes.java:89-102 | the short month lookup is the month lookup over its own table; the short weekday lookup is the weekday lookup except for the name "weekdays" in its out-of-range report |
| MDatetimes.WeekDayNameDirect | src/main/java/com/akiban/server/types3/mcompat/mtypes/MDatetimes.java:94-97 | weekday numbers 0..6 name entries 0..6, and only they yield a name |
| MDatetimes.EncodeTimeOfDayAsWritten | src/main/java/com/akiban/server/types3/mcompat/mtypes/MDatetimes.java:364-371 | encodeTime(millis, tz) as written, from the hour, minute and second of the converted time, with both hour and minute scaled by 10000; EncodeTimeOfDayAsWrittenCollides exhibits the clash |
| MDatetimes.EncodeTimeOfDayAsWrittenCollides | src/main/java/com/akiban/server/types3/mcompat/mtypes/MDatetimes.java:368-370 | as written, 00:01:00 and 01:00:00 get the same code, which decodes as 01:00:00 |
| MDatetimes.EncodeTimeOfDay | src/main/java/com/akiban/server/types3/mcompat/mtypes/MDatetimes.java:368-370 | with the minute scaled by 100, every time of day packs into 0..235959 |
| MDatetimes.EncodeTimeOfDayRoundTrip | src/main/java/com/akiban/server/types3/mcompat/mtypes/MDatetimes.java:368-370 | with the minute scaled by 100, decodeTime recovers every time of day |
| DatetimeParse.ParseDatetime | src/main/java/com/akiban/server/types3/mcompat/mtypes/MDatetimes.java:256-290 | every failure is InvalidDateFormatException("datetime", st) carrying the untrimmed input |
| DatetimeParse.MatchDatetime | src/main/java/com/akiban/server/types3/mcompat/mtypes/MDatetimes.java:488-489 | the matcher standing in for the pattern; MatchSound and MatchComplete prove it accepts exactly the renderings of well-formed groups, and with those groups |
| DatetimeParse.Trim | src/main/java/com/akiban/server/types3/mcompat/mtypes/MDatetimes.java:258 | String.trim: the result keeps no character up to U+0020 at either end, and is empty for text made only of such characters |
| DatetimeParse.TrimLeading | src/main/java/com/akiban/server/types3/mcompat/mtypes/MDatetimes.java:258 | a suffix of the text: every character dropped is up to U+0020 and the first one kept is above it |
| DatetimeParse.TrimTrailing | src/main/java/com/akiban/server/types3/mcompat/mtypes/MDatetimes.java:258 | a prefix of the text: every character dropped is up to U+0020 and the last one kept is above it |
| DatetimeParse.ParseFields | src/main/java/com/akiban/server/types3/mcompat/mtypes/MDatetimes.java:263-289 | Long.parseLong of the six groups then the DATETIME packing; ParseFieldsValue states its value and its NumberFormatException case |
| DatetimeParse.MatchSound | src/main/java/com/akiban/server/types3/mcompat/mtypes/MDatetimes.java:488-489 | whatever the parser accepts is the rendering of well-formed digit groups, separators and optional suffixes |
| DatetimeParse.MatchComplete | src/main/java/com/akiban/server/types3/mcompat/mtypes/MDatetimes.java:488-489 | the rendering of every well-formed match is accepted, with those very groups |
| DatetimeParse.TrimRender | src/main/java/com/akiban/server/types3/mcompat/mtypes/MDatetimes.java:258 | trimming leaves a rendering unchanged |
| DatetimeParse.ParseAcceptsExactlyThePattern | src/main/java/com/akiban/server/types3/mcompat/mtypes/MDatetimes.java:258-261 | text that does not match the pattern after trimming is rejected, and whatever is accepted is a rendering of well-formed groups |
| DatetimeParse.ParseLongShow | src/main/java/com/akiban/server/types3/mcompat/mtypes/MDatetimes.java:279-288 | Long.parseLong reads back the decimal text of every long, and rejects the text of any larger number |
| DatetimeParse.ParseLongLeadingZeros | src/main/java/com/akiban/server/types3/mcompat/mtypes/MDatetimes.java:279-288 | leading zeros do not change what Long.parseLong reads, so "007" parses as 7 |
| DatetimeParse.ParseFieldsValue | src/main/java/com/akiban/server/types3/mcompat/mtypes/MDatetimes.java:263-289 | the six groups parse to encodeDatetime of their values when each fits a long, and to InvalidDateFormat otherwise |
| DatetimeParse.ParseRendering | src/main/java/com/akiban/server/types3/mcompat/mtypes/MDatetimes.java:256-290 | the text of a well-formed match parses to encodeDatetime of its field values when each fits a long |
| DatetimeParse.DateOnlyIsMidnight | src/main/java/com/akiban/server/types3/mcompat/mtypes/MDatetimes.java:266-275 | date-only input has hour, minute and second 0 |
| DatetimeParse.ParseIgnoresSuffixes | src/main/java/com/akiban/server/types3/mcompat/mtypes/MDatetimes.java:488-489 | the fractional-second and zone suffixes do not change the result |
| DatetimeParse.ParseFormatted | src/main/java/com/akiban/server/types3/mcompat/mtypes/MDatetimes.java:256-290 | the plain decimal text "y-m-d h:mi:s" of six long fields parses to encodeDatetime of those fields |
| DatetimeParse.ParseFormattedText | src/main/java/com/akiban/server/types3/mcompat/mtypes/MDatetimes.java:256-290 | the same for the structured rendering of the six fields, which is well-formed |
| DatetimeParse.ParseDateOnly | src/main/java/com/akiban/server/types3/mcompat/mtypes/MDatetimes.java:263-275 | "y-m-d" parses to encodeDatetime of y, m, d at midnight |
| DatetimeParse.ParseDateOnlyText | src/main/java/com/akiban/server/types3/mcompat/mtypes/MDatetimes.java:263-275 | the same for the structured rendering of a date-only match |
| DatetimeParse.ParseExampleGarbage | src/main/java/com/akiban/server/types3/mcompat/mtypes/MDatetimes.java:258-261 | "garbage" is rejected with the text itself in the error |

## Left out

- Execution.Next: requires the cursor to be active. The source's lifecycle check (`checkIdleOrActive`) would also let next() run on an idle cursor, which would then start reading the inputs without open(); that path is not modelled.
- Execution.Destroy: requires the cursor not to be destroyed yet, because the close() it begins with fails the lifecycle check on a destroyed cursor.
- Execution.NextBindings: the children's activations are fixed when the cursor is made, and their rows do not change with the bindings. Re-running the inputs under new bindings (`openBindings`) is not modelled.
- The lifecycle checks of `CursorLifecycle` are preconditions, not exceptions.
- The internals of `MultipleQueryBindingsCursor` and of the children's `Operator.cursor` are abstract. A child is a finite row sequence with an open flag, and bindings are opaque identities.
- `openBindings`, `closeBindings` and `cancelBindings` only forward to the bindings cursor and the children, and are not modelled.
- The taps, the execution logging, `describePlan` and `getExplainer` are instrumentation with no effect on results.
- MasqueradingRow's `hKey`, `ancestorHKey`, `ancestorOf`, `subRow` and `compareTo` depend on HKey and UserTable types that are not part of this model. `containsRealRowOf` always throws, and `toString` is display only.
- The exception messages (`notSameShape`'s format string, `WrongRowTypeException`'s text) are represented by the values they mention.
- The Joda-Time and time-zone functions of MDatetimes are not modelled: `encodeDate(long, String)`, `encodeDatetime(long, String)`, `encodeTime(long, String)` (except the arithmetic in the finding below), `decodeTimestamp`, `encodeTimestamp`, `timestampToString`, `toJodaDatetime`, `fromJodaDatetime`, `TIMESTAMP_MAX` and `TIMESTAMP_MIN`. They need a foreign library and time-zone data.
- `dateToString`, `datetimeToString` and `timeToString` are `String.format` display functions, and are not modelled.
- The static initializer that fills the locale tables reads `DateFormatSymbols` and system properties. The tables are a parameter (`NameTable`) instead.
- `parseDate` depends on `CastUtils.truncateNonDigits`, which is not part of this model.
- In parseDatetime's pattern, `\d` and `\s` are read as ASCII digits and ASCII white space (space, tab, newline, vertical tab, form feed, carriage return), Java's defaults without UNICODE_CHARACTER_CLASS.
- MDatetimes.DateRoundTrip: requires the packed value to fit an `int`, because encodeDate narrows to `int`.
- MDatetimes.DatetimeRoundTrip: requires the packed value to fit a `long`, because the codec overflows beyond that.
- MDatetimes.TimeRoundTrip: requires the packing hhmmss to fit a `long`, because encodeTime(long[]) overflows beyond that; TimeRoundTripNeedsFit shows an hour for which the round trip then fails.
- MDatetimes.ValidDatetimeRoundTrip: requires a non-negative year, a month in 0..INT_MAX, a non-negative day and a packing that fits a `long`. isValidDayMonth sets no lower bound on the day, and ValidDatetimeNegativeFields shows valid datetimes with a negative day or year that decode to other fields. getLastDay narrows the month to an `int`, and ValidDatetimeMonthWraps shows a valid month the packing cannot carry. Past LONG_MAX the packing overflows.
- Short arrays: EncodeDate, EncodeDatetime, EncodeTime, GetLastDay and the IsValid checks require at least as many fields as they read. The ArrayIndexOutOfBoundsException the source throws on a shorter `long[]` is not modelled; GetVal's out-of-bounds case on a short name table is.
- The other files of the repository (BitwiseMatrixCreator.java, Direct.java, XAddInt.java, PostgresDDLStatementGenerator.java) are not part of this model.

## Findings

| source | as written | input that shows it | evidently intended | confidence | as-written member | corrected member |
|---|---|---|---|---|---|---|
| src/main/java/com/akiban/server/types3/mcompat/mtypes/MDatetimes.java:368-370 | `encodeTime(long millis, String tz)` multiplies the minute by DATETIME_HOUR_SCALE (10000) | 00:01:00 and 01:00:00 both encode as 10000, which decodeTime reads as 01:00:00 | the minute is multiplied by DATETIME_MIN_SCALE (100), as in encodeTime(long[]) at lines 373-378 | high; not executed | MDatetimes.EncodeTimeOfDayAsWrittenCollides | MDatetimes.EncodeTimeOfDayRoundTrip |
