/** Epoch arithmetic: `datetime_to_ms`, `datetime_to_timestamp`,
    `get_unix_ms_from_date`, `calendar.timegm` and the date-only parser
    `str_to_datetime`.

    A naive UTC `datetime` is modelled by its distance from the epoch in
    microseconds. `calendar.timegm(d.timetuple())` is then the floor of that
    distance in seconds and `d.microsecond` the remainder, which is what
    Dafny's Euclidean `/` and `%` compute for a positive divisor. */
module EpochTime {
  import opened Wrappers
  import Text

  const MicrosPerSecond: int := 1_000_000
  const SecondsPerDay: int := 86_400
  const MicrosPerDay: int := 86_400_000_000

  /** Python `int(a / b)` for `b > 0`: division that truncates toward zero. */
  function TruncDiv(a: int, b: int): (q: int)
    requires b > 0
    ensures a >= 0 ==> q * b <= a < q * b + b
    ensures a < 0 ==> q * b - b < a <= q * b
  {
    if a >= 0 then a / b else -((-a) / b)
  }

  /** A naive UTC datetime, as microseconds since 1970-01-01 00:00:00. */
  datatype Instant = Instant(micros: int) {
    /** `calendar.timegm(self.timetuple())`: whole seconds, rounded down. */
    function Seconds(): int { micros / MicrosPerSecond }
    /** `self.microsecond`, always in `[0, 999999]`. */
    function Microsecond(): int { micros % MicrosPerSecond }
  }

  /** `datetime_to_ms(date)` (and `Util.get_unix_ms_from_date`):
      `int(timegm * 1000 + microsecond / 1000)`. For a datetime at or after the
      epoch this is `1000 * s + m div 1000`, the datetime rounded down to a
      millisecond; before the epoch `int()` rounds toward zero, i.e. up. */
  function DatetimeToMs(d: Instant): (r: int)
    ensures d.micros >= 0 ==> r == 1000 * d.Seconds() + d.Microsecond() / 1000
    ensures d.micros >= 0 ==> r * 1000 <= d.micros < r * 1000 + 1000
    ensures d.micros < 0 ==> r * 1000 - 1000 < d.micros <= r * 1000
  {
    TruncDiv(d.Seconds() * 1_000_000 + d.Microsecond(), 1000)
  }

  /** Converting to milliseconds never reverses the order of two datetimes. */
  lemma DatetimeToMsMonotone(a: Instant, b: Instant)
    requires a.micros <= b.micros
    ensures DatetimeToMs(a) <= DatetimeToMs(b)
  {
  }

  /** `datetime_to_timestamp(date)` as written:
      `int(timegm + microsecond / 1000)`. The fraction added to the whole
      seconds is the microsecond count divided by 1000, i.e. a number of
      milliseconds, so for a datetime at or after the epoch the result is
      `s + m div 1000` seconds. */
  function DatetimeToTimestampAsWritten(d: Instant): (r: int)
    ensures d.micros >= 0 ==> r == d.Seconds() + d.Microsecond() / 1000
  {
    TruncDiv(d.Seconds() * 1000 + d.Microsecond(), 1000)
  }

  /** The unit mismatch is visible at half a second past the epoch: the
      as-written timestamp is 500 seconds, the datetime lies in second 0. */
  lemma TimestampAsWrittenOverreads()
    ensures DatetimeToTimestampAsWritten(Instant(500_000)) == 500
    ensures DatetimeToTimestamp(Instant(500_000)) == 0
  {
  }

  /** Whenever the datetime carries at least a millisecond, the as-written
      timestamp lies strictly after the second that contains it. */
  lemma TimestampAsWrittenAhead(d: Instant)
    requires d.micros >= 0 && d.Microsecond() >= 1000
    ensures DatetimeToTimestampAsWritten(d) > d.Seconds()
  {
  }

  /** `datetime_to_timestamp` with the evidently intended divisor:
      `int(timegm + microsecond / 1_000_000)`, the POSIX second that contains
      the datetime (rounded toward zero before the epoch). */
  function DatetimeToTimestamp(d: Instant): (r: int)
    ensures d.micros >= 0 ==> r == d.Seconds()
    ensures d.micros >= 0 ==> r * MicrosPerSecond <= d.micros < (r + 1) * MicrosPerSecond
    ensures d.micros < 0 ==> (r - 1) * MicrosPerSecond < d.micros <= r * MicrosPerSecond
  {
    TruncDiv(d.Seconds() * MicrosPerSecond + d.Microsecond(), MicrosPerSecond)
  }

  /** The timestamp and the millisecond conversion agree: the milliseconds of a
      datetime at or after the epoch start with its whole seconds. */
  lemma TimestampAgreesWithMs(d: Instant)
    requires d.micros >= 0
    ensures DatetimeToMs(d) / 1000 == DatetimeToTimestamp(d)
  {
  }

  // ---------------------------------------------------------------------
  // calendar.timegm over a broken-down date

  /** A broken-down UTC date and time of day. */
  datatype DateTime = DateTime(year: int, month: int, day: int, hour: int, minute: int, second: int)

  predicate IsLeap(y: int)
  {
    y % 4 == 0 && (y % 100 != 0 || y % 400 == 0)
  }

  function DaysInMonth(y: int, m: int): int
    requires 1 <= m <= 12
  {
    if m == 2 then (if IsLeap(y) then 29 else 28)
    else if m == 4 || m == 6 || m == 9 || m == 11 then 30
    else 31
  }

  /** Days of the year before the first of month `m`. */
  function DaysBeforeMonth(y: int, m: int): int
    requires 1 <= m <= 12
    decreases m
  {
    if m == 1 then 0 else DaysBeforeMonth(y, m - 1) + DaysInMonth(y, m - 1)
  }

  /** A proleptic Gregorian date with a time of day; years start at 1 as in
      Python's `datetime`. */
  predicate ValidDateTime(t: DateTime)
  {
    && 1 <= t.year
    && 1 <= t.month <= 12
    && 1 <= t.day <= DaysInMonth(t.year, t.month)
    && 0 <= t.hour < 24 && 0 <= t.minute < 60 && 0 <= t.second < 60
  }

  /** `tm_yday`: days since January 1 of the same year. */
  function YearDay(t: DateTime): int
    requires 1 <= t.month <= 12
  {
    DaysBeforeMonth(t.year, t.month) + t.day - 1
  }

  /** `calendar.timegm`: the expression of section 4.16 "Seconds Since the
      Epoch" of IEEE Std 1003.1-2017 (XBD), with `tm_year = year - 1900`.
      The standard writes it with C division for years after 1970; with floor
      division, which Dafny's `/` is for a positive divisor, it is exact for
      every proleptic Gregorian year, as Python's `timegm` is. */
  function TimeGm(t: DateTime): int
    requires 1 <= t.month <= 12
  {
    t.second + t.minute * 60 + t.hour * 3600 + YearDay(t) * 86400 + YearTerms(t.year)
  }

  /** The seconds `TimeGm` counts for the years before `year`: 365 days a
      year since 1970 plus the leap days, with `tm_year = year - 1900`. */
  function YearTerms(year: int): int
  {
    var y := year - 1900;
    (y - 70) * 31536000 + ((y - 69) / 4) * 86400
    - ((y - 1) / 100) * 86400 + ((y + 299) / 400) * 86400
  }

  /** The day after a valid date, at the same time of day. */
  function NextDay(t: DateTime): (n: DateTime)
    requires ValidDateTime(t)
    ensures ValidDateTime(n)
  {
    if t.day < DaysInMonth(t.year, t.month) then t.(day := t.day + 1)
    else if t.month < 12 then t.(month := t.month + 1, day := 1)
    else t.(year := t.year + 1, month := 1, day := 1)
  }

  /** The epoch itself is second 0. */
  lemma TimeGmEpoch()
    ensures TimeGm(DateTime(1970, 1, 1, 0, 0, 0)) == 0
  {
    var t := DateTime(1970, 1, 1, 0, 0, 0);
    assert YearDay(t) == 0;
    assert (70 - 69) / 4 == 0 && (70 - 1) / 100 == 0 && (70 + 299) / 400 == 0;
    assert YearTerms(1970) == 0;
  }

  /** Consecutive calendar days are exactly 86400 seconds apart, across month
      and year ends and leap days: the formula counts days without gaps. */
  lemma {:induction false} TimeGmNextDay(t: DateTime)
    requires ValidDateTime(t)
    ensures TimeGm(NextDay(t)) == TimeGm(t) + SecondsPerDay
  {
    var n := NextDay(t);
    if t.day < DaysInMonth(t.year, t.month) {
      assert YearDay(n) == YearDay(t) + 1;
    } else if t.month < 12 {
      assert DaysBeforeMonth(t.year, t.month + 1) == DaysBeforeMonth(t.year, t.month) + DaysInMonth(t.year, t.month);
      assert YearDay(n) == YearDay(t) + 1;
    } else {
      DecemberDays(t.year);
      YearSeconds(t.year);
      assert YearDay(n) == 0;
      assert YearDay(t) * 86400 + 86400 == (if IsLeap(t.year) then 366 else 365) * 86400;
    }
  }

  /** The year terms of `TimeGm` grow by the length of the year, in seconds,
      from one year to the next. */
  lemma YearSeconds(year: int)
    ensures YearTerms(year + 1) == YearTerms(year) + (if IsLeap(year) then 366 else 365) * 86400
  {
    var y := year - 1900;
    assert (y - 68) / 4 == (y - 69) / 4 + (if (y - 68) % 4 == 0 then 1 else 0);
    assert y / 100 == (y - 1) / 100 + (if y % 100 == 0 then 1 else 0);
    assert (y + 300) / 400 == (y + 299) / 400 + (if (y + 300) % 400 == 0 then 1 else 0);
    LeapBySteps(year);
  }

  /** December 31 is day 364 of a common year and day 365 of a leap year. */
  lemma DecemberDays(y: int)
    ensures DaysBeforeMonth(y, 12) + 31 == (if IsLeap(y) then 366 else 365)
  {
  }

  /** The leap-year rule restated through the three divisibility steps the
      formula counts (shifted by 1900, 1600 and 1968 years). */
  lemma LeapBySteps(year: int)
    ensures (if IsLeap(year) then 1 else 0)
         == (if (year - 1900 - 68) % 4 == 0 then 1 else 0)
          - (if (year - 1900) % 100 == 0 then 1 else 0)
          + (if (year - 1900 + 300) % 400 == 0 then 1 else 0)
  {
    FourYearCycle(year);
    CenturyCycle(year);
    GregorianCycle(year);
  }

  /** Moving a year by whole cycles of 4, 100 or 400 years keeps its place
      in that cycle. */
  lemma FourYearCycle(a: int)
    ensures (a - 1968) % 4 == a % 4
  {
  }

  lemma CenturyCycle(a: int)
    ensures (a - 1900) % 100 == a % 100
  {
  }

  lemma GregorianCycle(a: int)
    ensures (a - 1600) % 400 == a % 400
  {
  }

  /** A date at midnight is a whole number of days after the epoch. */
  lemma TimeGmMidnight(t: DateTime)
    requires 1 <= t.month <= 12
    requires t.hour == 0 && t.minute == 0 && t.second == 0
    ensures TimeGm(t) % SecondsPerDay == 0
  {
    var y := t.year - 1900;
    var days := YearDay(t) + (y - 70) * 365 + (y - 69) / 4 - (y - 1) / 100 + (y + 299) / 400;
    assert TimeGm(t) == days * 86400;
    MultipleOfDay(days);
  }

  lemma MultipleOfDay(k: int)
    ensures (k * 86400) % 86400 == 0
    ensures (k * 86400000000) % 86400000000 == 0
  {
  }

  /** Whole days in seconds stay whole days in microseconds. */
  lemma DaySecondsToMicros(x: int)
    requires x % SecondsPerDay == 0
    ensures (x * MicrosPerSecond) % MicrosPerDay == 0
  {
    var q := x / 86400;
    assert x == q * 86400;
    assert x * 1000000 == q * 86400000000;
    MultipleOfDay(q);
  }

  // ---------------------------------------------------------------------
  // date-only parsing

  predicate IsDigit(c: char)
  {
    '0' <= c <= '9'
  }

  /** The decimal value of a string of digits, most significant first. */
  function DigitsValue(s: string): int
    decreases |s|
  {
    if |s| == 0 then 0
    else DigitsValue(s[..|s| - 1]) * 10 + ((s[|s| - 1] as int) - ('0' as int))
  }

  predicate AllDigits(s: string)
  {
    forall i :: 0 <= i < |s| ==> IsDigit(s[i])
  }

  /** The `%Y` directive of `strptime`: exactly four digits. */
  predicate YearField(f: string)
  {
    |f| == 4 && AllDigits(f)
  }

  /** The `%m` directive: the alternatives `1[0-2]`, `0[1-9]` and `[1-9]`,
      so a month may be written with one digit. */
  predicate MonthField(f: string)
  {
    || (|f| == 2 && f[0] == '1' && '0' <= f[1] <= '2')
    || (|f| == 2 && f[0] == '0' && '1' <= f[1] <= '9')
    || (|f| == 1 && '1' <= f[0] <= '9')
  }

  /** The `%d` directive: the alternatives `3[01]`, `[12]\d`, `0[1-9]`, `[1-9]`
      and a space followed by `[1-9]`, so a day may be padded with a space. */
  predicate DayField(f: string)
  {
    || (|f| == 2 && f[0] == '3' && '0' <= f[1] <= '1')
    || (|f| == 2 && '1' <= f[0] <= '2' && IsDigit(f[1]))
    || (|f| == 2 && f[0] == '0' && '1' <= f[1] <= '9')
    || (|f| == 1 && '1' <= f[0] <= '9')
    || (|f| == 2 && f[0] == ' ' && '1' <= f[1] <= '9')
  }

  /** Python `int(f)` on a matched field: a leading space is skipped. */
  function FieldValue(f: string): int
  {
    if |f| > 0 && f[0] == ' ' then DigitsValue(f[1..]) else DigitsValue(f)
  }

  /** `datetime.strptime(s, '%Y<sep>%m<sep>%d')` for a separator that is
      neither a digit nor a space: the three fields between the separators
      must match their directives in full, and the date must exist (year 0
      and February 30 are a `ValueError`, as is a string that does not
      match: `None`). The time of day is 00:00:00. */
  function ParseDate(s: string, sep: char): (r: Option<DateTime>)
    ensures r.Some? ==> ValidDateTime(r.value)
    ensures r.Some? ==> r.value.hour == 0 && r.value.minute == 0 && r.value.second == 0
    ensures r.Some? ==> var f := Text.Split(s, sep);
              && |f| == 3 && YearField(f[0]) && MonthField(f[1]) && DayField(f[2])
              && r.value == DateTime(FieldValue(f[0]), FieldValue(f[1]), FieldValue(f[2]), 0, 0, 0)
  {
    var f := Text.Split(s, sep);
    if |f| != 3 || !YearField(f[0]) || !MonthField(f[1]) || !DayField(f[2]) then None
    else
      var y := FieldValue(f[0]);
      var m := FieldValue(f[1]);
      var d := FieldValue(f[2]);
      MonthRange(f[1]);
      if 1 <= y && 1 <= d <= DaysInMonth(y, m) then Some(DateTime(y, m, d, 0, 0, 0))
      else None
  }

  /** Every month the `%m` directive admits is between 1 and 12. */
  lemma MonthRange(f: string)
    requires MonthField(f)
    ensures 1 <= FieldValue(f) <= 12
  {
    if |f| == 2 {
      DigitsValueTwo(f);
    } else {
      DigitsValueOne(f);
    }
  }

  lemma DigitsValueOne(f: string)
    requires |f| == 1
    ensures DigitsValue(f) == (f[0] as int) - ('0' as int)
  {
    assert f[..0] == [];
    assert DigitsValue(f) == DigitsValue(f[..0]) * 10 + ((f[0] as int) - ('0' as int));
  }

  lemma DigitsValueTwo(f: string)
    requires |f| == 2
    ensures DigitsValue(f) == ((f[0] as int) - ('0' as int)) * 10 + ((f[1] as int) - ('0' as int))
  {
    DigitsValueOne(f[..1]);
    assert DigitsValue(f) == DigitsValue(f[..1]) * 10 + ((f[1] as int) - ('0' as int));
  }

  /** `n` written with exactly `width` decimal digits, zero-padded on the
      left, as `strftime` writes `%Y`, `%m` and `%d`. */
  function Padded(n: nat, width: nat): (s: string)
    ensures |s| == width && AllDigits(s)
  {
    if width == 0 then []
    else Padded(n / 10, width - 1) + [(('0' as int) + n % 10) as char]
  }

  function Pow10(k: nat): nat
  {
    if k == 0 then 1 else 10 * Pow10(k - 1)
  }

  /** Reading back a zero-padded number gives the number. */
  lemma {:induction false} PaddedValue(n: nat, width: nat)
    requires n < Pow10(width)
    ensures DigitsValue(Padded(n, width)) == n
  {
    if width > 0 {
      var p := Padded(n, width);
      PaddedValue(n / 10, width - 1);
      assert p[..|p| - 1] == Padded(n / 10, width - 1);
    }
  }

  lemma PaddedTwo(n: nat)
    requires n < 100
    ensures Padded(n, 2) == [(('0' as int) + n / 10) as char, (('0' as int) + n % 10) as char]
  {
    assert Padded(n / 10, 1) == Padded(n / 100, 0) + [(('0' as int) + (n / 10) % 10) as char];
  }

  /** `t.strftime('%Y<sep>%m<sep>%d')` for a year below 10000. */
  function FormatDate(t: DateTime, sep: char): (s: string)
    requires 1 <= t.year <= 9999 && 1 <= t.month <= 12 && 1 <= t.day <= 31
    ensures |s| == 10
  {
    Padded(t.year, 4) + [sep] + Padded(t.month, 2) + [sep] + Padded(t.day, 2)
  }

  /** A formatted date splits into its three padded fields. */
  lemma FormatDateSplits(t: DateTime, sep: char)
    requires 1 <= t.year <= 9999 && 1 <= t.month <= 12 && 1 <= t.day <= 31
    requires !IsDigit(sep)
    ensures Text.Split(FormatDate(t, sep), sep) == [Padded(t.year, 4), Padded(t.month, 2), Padded(t.day, 2)]
  {
    var y, m, d := Padded(t.year, 4), Padded(t.month, 2), Padded(t.day, 2);
    assert FormatDate(t, sep) == y + [sep] + (m + [sep] + d);
    Text.SplitField(y, sep, m + [sep] + d);
    Text.SplitField(m, sep, d);
    Text.SplitNoSeparator(d, sep);
  }

  /** The padded month and day match their directives and read back as the
      month and day. */
  lemma PaddedFields(t: DateTime)
    requires 1 <= t.year <= 9999 && 1 <= t.month <= 12 && 1 <= t.day <= 31
    ensures YearField(Padded(t.year, 4)) && FieldValue(Padded(t.year, 4)) == t.year
    ensures MonthField(Padded(t.month, 2)) && FieldValue(Padded(t.month, 2)) == t.month
    ensures DayField(Padded(t.day, 2)) && FieldValue(Padded(t.day, 2)) == t.day
  {
    assert Pow10(4) == 10000;
    PaddedValue(t.year, 4);
    PaddedValue(t.month, 2);
    PaddedValue(t.day, 2);
    PaddedTwo(t.month);
    PaddedTwo(t.day);
  }

  /** Parsing what `strftime` writes gives the date back: the parser accepts
      every date of years 1 to 9999, at midnight, and reads it correctly. */
  lemma ParseFormatDate(t: DateTime, sep: char)
    requires ValidDateTime(t) && t.year <= 9999
    requires t.hour == 0 && t.minute == 0 && t.second == 0
    requires !IsDigit(sep)
    ensures ParseDate(FormatDate(t, sep), sep) == Some(t)
  {
    FormatDateSplits(t, sep);
    PaddedFields(t);
  }

  /** The datetime a broken-down time denotes. */
  function ToInstant(t: DateTime): Instant
    requires 1 <= t.month <= 12
  {
    Instant(TimeGm(t) * MicrosPerSecond)
  }

  /** `str_to_datetime(dt_str)`: every `-` becomes `/`, then the text is parsed
      with `%Y/%m/%d`. */
  function StrToDatetime(s: string): (r: Option<Instant>)
    ensures r.Some? <==> ParseDate(NormaliseDate(s), '/').Some?
    ensures r.Some? ==> r.value == ToInstant(ParseDate(NormaliseDate(s), '/').value)
    ensures r.Some? ==> r.value.micros % MicrosPerDay == 0
  {
    match ParseDate(NormaliseDate(s), '/')
    case None => None
    case Some(t) =>
      TimeGmMidnight(t);
      DaySecondsToMicros(TimeGm(t));
      Some(ToInstant(t))
  }

  /** `dt_str.replace("-", "/")`. */
  function NormaliseDate(s: string): (r: string)
    ensures '-' !in r
    ensures |r| == |s|
  {
    Text.ReplaceRemovesChar(s, '-', "/");
    Text.ReplaceCharPointwise(s, '-', '/');
    Text.Replace(s, "-", "/")
  }

  /** Normalising twice is normalising once. */
  lemma NormaliseDateIdempotent(s: string)
    ensures NormaliseDate(NormaliseDate(s)) == NormaliseDate(s)
  {
    Text.ReplaceCharIdempotent(s, '-', '/');
  }

  /** Two strings that differ only in writing `-` or `/` as separator parse to
      the same datetime, e.g. "2023-01-01" and "2023/01/01". */
  lemma {:induction false} SeparatorsInterchangeable(a: string, b: string)
    requires |a| == |b|
    requires forall i :: 0 <= i < |a| ==>
               a[i] == b[i] || (a[i] in "-/" && b[i] in "-/")
    ensures StrToDatetime(a) == StrToDatetime(b)
  {
    Text.ReplaceCharPointwise(a, '-', '/');
    Text.ReplaceCharPointwise(b, '-', '/');
    assert NormaliseDate(a) == NormaliseDate(b);
  }

  /** A date written `YYYY-MM-DD` or `YYYY/MM/DD` is read back as midnight
      of that date. */
  lemma StrToDatetimeFormat(t: DateTime, sep: char)
    requires ValidDateTime(t) && t.year <= 9999
    requires t.hour == 0 && t.minute == 0 && t.second == 0
    requires sep == '-' || sep == '/'
    ensures StrToDatetime(FormatDate(t, sep)) == Some(ToInstant(t))
  {
    var slashed := FormatDate(t, '/');
    Text.NoCharNoOccurrence(slashed, "-", '-');
    Text.ReplaceAbsent(slashed, "-", "/");
    assert NormaliseDate(slashed) == slashed;
    ParseFormatDate(t, '/');
    if sep == '-' {
      FormatDateSeparators(t);
      SeparatorsInterchangeable(FormatDate(t, '-'), slashed);
    }
  }

  /** The two spellings of a date differ only in their separators. */
  lemma FormatDateSeparators(t: DateTime)
    requires 1 <= t.year <= 9999 && 1 <= t.month <= 12 && 1 <= t.day <= 31
    ensures forall i :: 0 <= i < 10 ==>
              FormatDate(t, '-')[i] == FormatDate(t, '/')[i] ||
              (FormatDate(t, '-')[i] in "-/" && FormatDate(t, '/')[i] in "-/")
  {
    var y, m, d := Padded(t.year, 4), Padded(t.month, 2), Padded(t.day, 2);
    assert FormatDate(t, '-') == y + ['-'] + m + ['-'] + d;
    assert FormatDate(t, '/') == y + ['/'] + m + ['/'] + d;
  }

  /** Both spellings in the docstring parse to the same datetime. */
  lemma DocstringExample()
    ensures StrToDatetime("2023-01-01") == StrToDatetime("2023/01/01")
  {
    SeparatorsInterchangeable("2023-01-01", "2023/01/01");
  }

  /** The slash spelling in the docstring is accepted and denotes
      2023-01-01 00:00:00. */
  lemma DocstringExampleParses()
    ensures StrToDatetime("2023/01/01") == Some(ToInstant(DateTime(2023, 1, 1, 0, 0, 0)))
  {
    var s := "2023/01/01";
    Text.NoCharNoOccurrence(s, "-", '-');
    Text.ReplaceAbsent(s, "-", "/");
    assert NormaliseDate(s) == s;
    ExampleDateParses();
  }

  lemma ExampleDateParses()
    ensures ParseDate("2023/01/01", '/') == Some(DateTime(2023, 1, 1, 0, 0, 0))
  {
    var t := DateTime(2023, 1, 1, 0, 0, 0);
    ExamplePadded();
    assert FormatDate(t, '/') == "2023/01/01";
    ParseFormatDate(t, '/');
  }

  lemma ExamplePadded()
    ensures Padded(2023, 4) == "2023" && Padded(1, 2) == "01"
  {
    PaddedTwo(1);
    PaddedTwo(20);
    assert Padded(2023, 4) == Padded(20, 2) + ['2'] + ['3'];
  }
}
