/** `TimeUtil`: the fixed +8 h correction, the `yyyy-MM-dd HH:mm:ss.SSS`
    wire format in Asia/Taipei time, the server-time parse fallback chain
    and `normalizeToLocalStartOfDay`. Calendar arithmetic is the proleptic
    Gregorian calendar of `java.time`; the zone is the fixed UTC+8 of
    `Clock`. */
module TimeUtil {
  import opened Wrappers
  import opened Text
  import opened Clock

  /** `TAIPEI_OFFSET_MS` */
  const TAIPEI_OFFSET_MS: int := 8 * 60 * 60 * 1000

  /** `utcMillisFixToTaipeiMillis(utcMillis)` */
  function UtcMillisFixToTaipeiMillis(utcMillis: int): (r: int)
    ensures r - utcMillis == ZONE_OFFSET_MS
  {
    utcMillis + TAIPEI_OFFSET_MS
  }

  /** The correction is a pure shift: injective, monotone, and it keeps
      every difference between two instants. */
  lemma UtcFixIsShift(a: int, b: int)
    ensures UtcMillisFixToTaipeiMillis(a) == UtcMillisFixToTaipeiMillis(b) <==> a == b
    ensures UtcMillisFixToTaipeiMillis(a) < UtcMillisFixToTaipeiMillis(b) <==> a < b
    ensures UtcMillisFixToTaipeiMillis(b) - UtcMillisFixToTaipeiMillis(a) == b - a
  {
  }

  // ---------------------------------------------------------------------
  // The proleptic Gregorian calendar
  // ---------------------------------------------------------------------

  predicate IsLeap(y: int) {
    y % 4 == 0 && (y % 100 != 0 || y % 400 == 0)
  }

  function YearLength(y: int): int {
    if IsLeap(y) then 366 else 365
  }

  function MonthLength(y: int, m: int): (n: int)
    requires 1 <= m <= 12
    ensures 28 <= n <= 31
  {
    if m == 2 then (if IsLeap(y) then 29 else 28)
    else if m == 4 || m == 6 || m == 9 || m == 11 then 30
    else 31
  }

  /** Days of year `y` before the first of month `m`. */
  function DaysBeforeMonth(y: int, m: int): (n: int)
    requires 1 <= m <= 12
    ensures 0 <= n
  {
    var cum := [0, 31, 59, 90, 120, 151, 181, 212, 243, 273, 304, 334];
    cum[m - 1] + (if m > 2 && IsLeap(y) then 1 else 0)
  }

  /** The month table and the month lengths agree, and twelve months make
      the year. */
  lemma DaysBeforeMonthStep(y: int, m: int)
    requires 1 <= m <= 12
    ensures m < 12 ==> DaysBeforeMonth(y, m + 1) == DaysBeforeMonth(y, m) + MonthLength(y, m)
    ensures m == 12 ==> DaysBeforeMonth(y, 12) + MonthLength(y, 12) == YearLength(y)
  {
  }

  /** Days from 0001-01-01 to the first of January of year `y`. */
  function DaysBeforeYear(y: int): int {
    var p := y - 1;
    365 * p + p / 4 - p / 100 + p / 400
  }

  /** Adding one to `p` bumps `p / k` exactly when `k` divides `p + 1`. */
  lemma DivStep(p: int, k: int)
    requires k > 0
    ensures (p + 1) / k == p / k + (if (p + 1) % k == 0 then 1 else 0)
  {
    var q, r := p / k, p % k;
    if r + 1 < k {
      DivModUnique(p + 1, k, q, r + 1);
    } else {
      DivModUnique(p + 1, k, q + 1, 0);
    }
  }

  /** Consecutive years are one year length apart. */
  lemma DaysBeforeNextYear(y: int)
    ensures DaysBeforeYear(y + 1) == DaysBeforeYear(y) + YearLength(y)
  {
    DivStep(y - 1, 4);
    DivStep(y - 1, 100);
    DivStep(y - 1, 400);
  }

  /** 1970-01-01 counted in days from 0001-01-01. */
  const EPOCH_DAY_OFFSET: int := 719162

  lemma EpochOffsetIs1970()
    ensures DaysBeforeYear(1970) == EPOCH_DAY_OFFSET
  {
  }

  /** Year containing day `n`, counted from the first of January of `y`,
      with the day's index inside that year. */
  function FindYear(n: int, y: int): (r: (int, int))
    ensures DaysBeforeYear(r.0) + r.1 == DaysBeforeYear(y) + n
    ensures 0 <= r.1 < YearLength(r.0)
    ensures n >= 0 ==> r.0 >= y
    decreases if n < 0 then 1 else 0, if n < 0 then -n else n
  {
    if n < 0 then
      DaysBeforeNextYear(y - 1);
      FindYear(n + YearLength(y - 1), y - 1)
    else if n < YearLength(y) then (y, n)
    else
      DaysBeforeNextYear(y);
      FindYear(n - YearLength(y), y + 1)
  }

  /** Month containing day-of-year `d`, counted from the first of month `m`,
      with the day's index inside that month. */
  function FindMonth(d: int, y: int, m: int): (r: (int, int))
    requires 1 <= m <= 12
    requires 0 <= d < YearLength(y) - DaysBeforeMonth(y, m)
    ensures 1 <= r.0 <= 12
    ensures DaysBeforeMonth(y, r.0) + r.1 == DaysBeforeMonth(y, m) + d
    ensures 0 <= r.1 < MonthLength(y, r.0)
    decreases 12 - m
  {
    DaysBeforeMonthStep(y, m);
    if d < MonthLength(y, m) then (m, d)
    else FindMonth(d - MonthLength(y, m), y, m + 1)
  }

  /** A `LocalDateTime` at millisecond precision. */
  datatype LocalDateTime = LocalDateTime(year: int, month: int, day: int, hour: int, minute: int, second: int, milli: int)

  /** The fields a `LocalDateTime` can hold. */
  predicate ValidDateTime(t: LocalDateTime) {
    && ValidDate(Date(t.year, t.month, t.day))
    && 0 <= t.hour < 24 && 0 <= t.minute < 60 && 0 <= t.second < 60 && 0 <= t.milli < 1000
  }

  /** A calendar date. */
  datatype Date = Date(year: int, month: int, day: int)

  predicate ValidDate(d: Date) {
    1 <= d.month <= 12 && 1 <= d.day <= MonthLength(d.year, d.month)
  }

  /** The date `days` days after 1970-01-01. */
  function CivilFromDays(days: int): (d: Date)
    ensures ValidDate(d)
  {
    var yd := FindYear(days + EPOCH_DAY_OFFSET, 1);
    DaysBeforeMonthBound(yd.0);
    var md := FindMonth(yd.1, yd.0, 1);
    Date(yd.0, md.0, md.1 + 1)
  }

  lemma DaysBeforeMonthBound(y: int)
    ensures DaysBeforeMonth(y, 1) == 0
  {
  }

  /** Days from 1970-01-01 to `d`. */
  function DaysFromCivil(d: Date): int
    requires 1 <= d.month <= 12
  {
    DaysBeforeYear(d.year) + DaysBeforeMonth(d.year, d.month) + (d.day - 1) - EPOCH_DAY_OFFSET
  }

  /** Counting the days to the date of day `days` gives `days` back. */
  lemma DaysFromCivilFromDays(days: int)
    ensures DaysFromCivil(CivilFromDays(days)) == days
  {
    DaysBeforeMonthBound(FindYear(days + EPOCH_DAY_OFFSET, 1).0);
  }

  /** A valid date is the date of its own day count. */
  lemma CivilFromDaysFromCivil(d: Date)
    requires ValidDate(d)
    ensures CivilFromDays(DaysFromCivil(d)) == d
  {
    var doy := DaysBeforeMonth(d.year, d.month) + d.day - 1;
    DayOfYearBound(d);
    DaysBeforeMonthBound(d.year);
    FindYearUnique(DaysFromCivil(d) + EPOCH_DAY_OFFSET, d.year, doy);
    assert FindYear(DaysFromCivil(d) + EPOCH_DAY_OFFSET, 1) == (d.year, doy);
    FindMonthUnique(doy, d.year, 1, d.month, d.day - 1);
    assert FindMonth(doy, d.year, 1) == (d.month, d.day - 1);
  }

  /** Day 0 is 1970-01-01. */
  lemma EpochIsNewYear1970()
    ensures CivilFromDays(0) == Date(1970, 1, 1)
  {
    EpochOffsetIs1970();
    CivilFromDaysFromCivil(Date(1970, 1, 1));
  }

  /** Wall-clock time of instant `m` in the device zone. */
  function ToLocal(m: int): (t: LocalDateTime)
    ensures ValidDateTime(t)
  {
    var local := m + ZONE_OFFSET_MS;
    var date := CivilFromDays(local / DAY_MS);
    var ms := local % DAY_MS;
    var secs := ms / 1000;
    var mins := secs / 60;
    LocalDateTime(date.year, date.month, date.day, mins / 60, mins % 60, secs % 60, ms % 1000)
  }

  function DateOf(t: LocalDateTime): Date {
    Date(t.year, t.month, t.day)
  }

  /** Milliseconds after midnight of a wall-clock time. */
  function TimeOfDay(t: LocalDateTime): int {
    ((t.hour * 60 + t.minute) * 60 + t.second) * 1000 + t.milli
  }

  /** `atZone(systemDefault()).toInstant().toEpochMilli()` of a local time. */
  function FromLocal(t: LocalDateTime): int
    requires 1 <= t.month <= 12
  {
    DaysFromCivil(DateOf(t)) * DAY_MS + TimeOfDay(t) - ZONE_OFFSET_MS
  }

  /** Reading an instant on the wall clock and converting back gives it back. */
  lemma FromLocalToLocal(m: int)
    ensures FromLocal(ToLocal(m)) == m
  {
    var local := m + ZONE_OFFSET_MS;
    DaysFromCivilFromDays(local / DAY_MS);
    assert TimeOfDay(ToLocal(m)) == local % DAY_MS;
  }

  /** The clock fields are read back from the time of day. */
  lemma SplitTimeOfDay(t: LocalDateTime)
    requires ValidDateTime(t)
    ensures 0 <= TimeOfDay(t) < DAY_MS
    ensures var secs := TimeOfDay(t) / 1000; var mins := secs / 60;
      && TimeOfDay(t) % 1000 == t.milli && secs % 60 == t.second
      && mins % 60 == t.minute && mins / 60 == t.hour
  {
    var secs := (t.hour * 60 + t.minute) * 60 + t.second;
    DivModUnique(TimeOfDay(t), 1000, secs, t.milli);
    DivModUnique(secs, 60, t.hour * 60 + t.minute, t.second);
    DivModUnique(t.hour * 60 + t.minute, 60, t.hour, t.minute);
  }

  /** The wall-clock fields of `ToLocal` come from the day number and the
      time of day separately. */
  lemma ToLocalParts(m: int, days: int, ms: int)
    requires m + ZONE_OFFSET_MS == days * DAY_MS + ms && 0 <= ms < DAY_MS
    ensures var t := ToLocal(m);
      var secs := ms / 1000; var mins := secs / 60;
      && DateOf(t) == CivilFromDays(days)
      && t.hour == mins / 60 && t.minute == mins % 60 && t.second == secs % 60 && t.milli == ms % 1000
  {
    DivModUnique(m + ZONE_OFFSET_MS, DAY_MS, days, ms);
  }

  /** Two valid wall-clock times for the same instant are equal. */
  lemma ToLocalFromLocal(t: LocalDateTime)
    requires ValidDateTime(t)
    ensures ToLocal(FromLocal(t)) == t
  {
    SplitTimeOfDay(t);
    ToLocalParts(FromLocal(t), DaysFromCivil(DateOf(t)), TimeOfDay(t));
    CivilFromDaysFromCivil(DateOf(t));
  }

  lemma DayOfYearBound(d: Date)
    requires ValidDate(d)
    ensures 0 <= DaysBeforeMonth(d.year, d.month) + d.day - 1 < YearLength(d.year)
  {
    DaysBeforeMonthStep(d.year, d.month);
    if d.month < 12 {
      MonthsBeforeYearEnd(d.year, d.month + 1);
    }
  }

  lemma {:induction false} MonthsBeforeYearEnd(y: int, m: int)
    requires 1 <= m <= 12
    ensures DaysBeforeMonth(y, m) < YearLength(y)
    decreases 12 - m
  {
    DaysBeforeMonthStep(y, m);
    if m < 12 {
      MonthsBeforeYearEnd(y, m + 1);
    }
  }

  /** Days before a year are strictly increasing in the year. */
  lemma {:induction false} DaysBeforeYearMonotone(a: int, b: int)
    requires a < b
    ensures DaysBeforeYear(a) + YearLength(a) <= DaysBeforeYear(b)
    decreases b - a
  {
    DaysBeforeNextYear(a);
    if a + 1 < b {
      DaysBeforeYearMonotone(a + 1, b);
    }
  }

  /** A day has exactly one year and day-of-year. */
  lemma FindYearUnique(n: int, y: int, d: int)
    requires DaysBeforeYear(y) + d == DaysBeforeYear(1) + n && 0 <= d < YearLength(y)
    ensures FindYear(n, 1) == (y, d)
  {
    var r := FindYear(n, 1);
    if r.0 < y {
      DaysBeforeYearMonotone(r.0, y);
    } else if y < r.0 {
      DaysBeforeYearMonotone(y, r.0);
    }
  }

  /** A day of the year has exactly one month and day-of-month. */
  lemma {:induction false} FindMonthUnique(doy: int, y: int, m0: int, m: int, d: int)
    requires 1 <= m0 <= m <= 12
    requires 0 <= doy < YearLength(y) - DaysBeforeMonth(y, m0)
    requires DaysBeforeMonth(y, m) + d == DaysBeforeMonth(y, m0) + doy && 0 <= d < MonthLength(y, m)
    ensures FindMonth(doy, y, m0) == (m, d)
    decreases 12 - m0
  {
    DaysBeforeMonthStep(y, m0);
    if m0 < m {
      MonthsIncrease(y, m0 + 1, m);
      FindMonthUnique(doy - MonthLength(y, m0), y, m0 + 1, m, d);
    }
  }

  lemma {:induction false} MonthsIncrease(y: int, a: int, b: int)
    requires 1 <= a <= b <= 12
    ensures DaysBeforeMonth(y, a) <= DaysBeforeMonth(y, b)
    decreases b - a
  {
    DaysBeforeMonthStep(y, a);
    if a < b {
      MonthsIncrease(y, a + 1, b);
    }
  }

  // ---------------------------------------------------------------------
  // MYSQL_MILLIS = "yyyy-MM-dd HH:mm:ss.SSS" in Asia/Taipei
  // ---------------------------------------------------------------------

  /** `yyyy` prints the year of era with at least four digits and a `+`
      once it needs more; the era itself is not printed. */
  function YearText(y: int): (s: string)
    ensures 1 <= y <= 9999 ==> s == FixedDigits(y, 4)
  {
    var yoe := if y >= 1 then y else 1 - y;
    if yoe > 9999 then "+" + NatToString(yoe) else FixedDigits(yoe, 4)
  }

  /** `yyyy-MM-dd` */
  function DateText(t: LocalDateTime): string
    requires ValidDateTime(t)
  {
    YearText(t.year) + "-" + FixedDigits(t.month, 2) + "-" + FixedDigits(t.day, 2)
  }

  /** `HH:mm:ss` */
  function ClockText(t: LocalDateTime): string
    requires ValidDateTime(t)
  {
    FixedDigits(t.hour, 2) + ":" + FixedDigits(t.minute, 2) + ":" + FixedDigits(t.second, 2)
  }

  /** The pattern applied to a local date-time. */
  function FormatLocal(t: LocalDateTime): string
    requires ValidDateTime(t)
  {
    DateText(t) + " " + ClockText(t) + "." + FixedDigits(t.milli, 3)
  }

  /** `millisToServerIso(millis)` */
  function MillisToServerIso(millis: int): (s: string)
    ensures 1 <= ToLocal(millis).year <= 9999 ==>
      |s| == 23 && s[10] == ' ' && ParsePattern(s) == Some(ToLocal(millis))
  {
    var t := ToLocal(millis);
    if 1 <= t.year <= 9999 then
      ParseFormatLocal(t);
      FormatLocal(t)
    else
      FormatLocal(t)
  }

  /** The separators the pattern expects, by position. */
  predicate PatternShape(s: string) {
    && |s| == 23
    && s[4] == '-' && s[7] == '-' && s[10] == ' ' && s[13] == ':' && s[16] == ':' && s[19] == '.'
    && AllDigits(s[0..4]) && AllDigits(s[5..7]) && AllDigits(s[8..10]) && AllDigits(s[11..13])
    && AllDigits(s[14..16]) && AllDigits(s[17..19]) && AllDigits(s[20..23])
  }

  /** `LocalDateTime.parse(raw, MYSQL_MILLIS)` with the SMART resolver: field
      ranges are checked, a day past the month's end is pulled back to its
      last day, and `24:00:00.000` is midnight of the next day. Years take
      exactly four digits here. */
  function ParsePattern(s: string): (r: Option<LocalDateTime>)
    ensures r.Some? ==> PatternShape(s) && ValidDateTime(r.value) && 1 <= r.value.year <= 9999
  {
    if !PatternShape(s) then None
    else
      var y := DigitsValue(s[0..4]);
      var mo := DigitsValue(s[5..7]);
      var d := DigitsValue(s[8..10]);
      var h := DigitsValue(s[11..13]);
      var mi := DigitsValue(s[14..16]);
      var sec := DigitsValue(s[17..19]);
      var ms := DigitsValue(s[20..23]);
      DigitsValueBound(s[0..4]);
      DigitsValueBound(s[20..23]);
      if y < 1 || mo < 1 || mo > 12 || d < 1 || d > 31 || mi > 59 || sec > 59 then None
      else if h == 24 && mi == 0 && sec == 0 && ms == 0 then
        NextDay(y, mo, Min(d, MonthLength(y, mo)))
      else if h > 23 then None
      else
        Some(LocalDateTime(y, mo, Min(d, MonthLength(y, mo)), h, mi, sec, ms))
  }

  function Min(a: int, b: int): int {
    if a <= b then a else b
  }

  /** Midnight starting the day after `y-mo-d`; `None` past year 9999. */
  function NextDay(y: int, mo: int, d: int): (r: Option<LocalDateTime>)
    requires 1 <= y <= 9999 && 1 <= mo <= 12 && 1 <= d <= MonthLength(y, mo)
    ensures r.Some? ==> ValidDateTime(r.value) && 1 <= r.value.year <= 9999
  {
    if d < MonthLength(y, mo) then Some(LocalDateTime(y, mo, d + 1, 0, 0, 0, 0))
    else if mo < 12 then Some(LocalDateTime(y, mo + 1, 1, 0, 0, 0, 0))
    else if y < 9999 then Some(LocalDateTime(y + 1, 1, 1, 0, 0, 0, 0))
    else None
  }

  /** The pattern parse followed by `atZone(systemDefault())`. */
  function ParseMysqlMillis(s: string): (r: Option<int>)
    ensures r.Some? ==> PatternShape(s)
  {
    match ParsePattern(s)
    case None => None
    case Some(t) => Some(FromLocal(t))
  }

  /** The parts of `parseServerTimeToMillis` outside this model: the result of
      `OffsetDateTime.parse` (`None` when it throws) and the clock. */
  datatype TimeEnv = TimeEnv(iso: string -> Option<int>, now: int)

  /** `OffsetDateTime.parse` uses `ISO_OFFSET_DATE_TIME`, whose layout has no
      space and no padding: it reads a letter `T` or `t` (the parse ignores
      case) between date and time, and a year may carry a sign and more than
      four digits. The one fact relied on is that text holding a space is
      rejected. */
  ghost predicate IsoParserShaped(env: TimeEnv) {
    forall s :: env.iso(s).Some? ==> ' ' !in s
  }

  /** `parseServerTimeToMillis(raw)`: ISO first, then the pattern, then now.
      It never fails. */
  function ParseServerTimeToMillis(raw: string, env: TimeEnv): (r: int)
    ensures env.iso(raw).Some? ==> r == env.iso(raw).value
    ensures env.iso(raw).None? && ParseMysqlMillis(raw).Some? ==> r == ParseMysqlMillis(raw).value
    ensures env.iso(raw).None? && ParseMysqlMillis(raw).None? ==> r == env.now
  {
    match env.iso(raw)
    case Some(v) => v
    case None =>
      match ParseMysqlMillis(raw)
      case Some(v) => v
      case None => env.now
  }

  /** The pattern parser reads back exactly what the formatter wrote. */
  lemma ParseFormatLocal(t: LocalDateTime)
    requires ValidDateTime(t) && 1 <= t.year <= 9999
    ensures ParsePattern(FormatLocal(t)) == Some(t)
  {
    var s := FormatLocal(t);
    FormatSlices(t);
    assert PatternShape(s);
    assert Pow10(2) == 100 && Pow10(3) == 1000 && Pow10(4) == 10000;
    assert DigitsValue(s[0..4]) == t.year by { FixedDigitsValue(t.year, 4); }
    assert DigitsValue(s[5..7]) == t.month by { FixedDigitsValue(t.month, 2); }
    assert DigitsValue(s[8..10]) == t.day by { FixedDigitsValue(t.day, 2); }
    assert DigitsValue(s[11..13]) == t.hour by { FixedDigitsValue(t.hour, 2); }
    assert DigitsValue(s[14..16]) == t.minute by { FixedDigitsValue(t.minute, 2); }
    assert DigitsValue(s[17..19]) == t.second by { FixedDigitsValue(t.second, 2); }
    assert DigitsValue(s[20..23]) == t.milli by { FixedDigitsValue(t.milli, 3); }
    assert Min(t.day, MonthLength(t.year, t.month)) == t.day;
  }

  /** Where each field sits in the formatted text. */
  lemma FormatSlices(t: LocalDateTime)
    requires ValidDateTime(t) && 1 <= t.year <= 9999
    ensures var s := FormatLocal(t);
      && |s| == 23 && s[4] == '-' && s[7] == '-' && s[10] == ' ' && s[13] == ':' && s[16] == ':' && s[19] == '.'
      && s[0..4] == FixedDigits(t.year, 4) && s[5..7] == FixedDigits(t.month, 2)
      && s[8..10] == FixedDigits(t.day, 2) && s[11..13] == FixedDigits(t.hour, 2)
      && s[14..16] == FixedDigits(t.minute, 2) && s[17..19] == FixedDigits(t.second, 2)
      && s[20..23] == FixedDigits(t.milli, 3)
  {
    var y, mo, d := FixedDigits(t.year, 4), FixedDigits(t.month, 2), FixedDigits(t.day, 2);
    var h, mi, se := FixedDigits(t.hour, 2), FixedDigits(t.minute, 2), FixedDigits(t.second, 2);
    var ms := FixedDigits(t.milli, 3);
    assert FormatLocal(t) == (y + "-" + mo + "-" + d) + " " + (h + ":" + mi + ":" + se) + "." + ms;
    LayoutSlices(y, mo, d, h, mi, se, ms);
  }

  /** Where each field sits in `yyyy-MM-dd HH:mm:ss.SSS`, whatever the
      fields' digits. */
  lemma LayoutSlices(y: string, mo: string, d: string, h: string, mi: string, se: string, ms: string)
    requires |y| == 4 && |mo| == 2 && |d| == 2 && |h| == 2 && |mi| == 2 && |se| == 2 && |ms| == 3
    ensures var s := (y + "-" + mo + "-" + d) + " " + (h + ":" + mi + ":" + se) + "." + ms;
      && |s| == 23 && s[4] == '-' && s[7] == '-' && s[10] == ' ' && s[13] == ':' && s[16] == ':' && s[19] == '.'
      && s[0..4] == y && s[5..7] == mo && s[8..10] == d && s[11..13] == h
      && s[14..16] == mi && s[17..19] == se && s[20..23] == ms
  {
    var date, time := y + "-" + mo + "-" + d, h + ":" + mi + ":" + se;
    var s := date + " " + time + "." + ms;
    assert s[0..10] == date && s[11..19] == time && s[20..23] == ms;
    assert date[0..4] == y && date[5..7] == mo && date[8..10] == d;
    assert time[0..2] == h && time[3..5] == mi && time[6..8] == se;
  }

  /** `millisToServerIso` writes what the fallback parser reads: within years
      1 to 9999 the parse chain returns the instant that was formatted. */
  lemma ServerIsoRoundTrip(m: int, env: TimeEnv)
    requires IsoParserShaped(env)
    requires 1 <= ToLocal(m).year <= 9999
    ensures ParseServerTimeToMillis(MillisToServerIso(m), env) == m
  {
    var s := MillisToServerIso(m);
    assert s[10] == ' ';
    ParseFormatLocal(ToLocal(m));
    FromLocalToLocal(m);
  }

  /** 15:59:59.999 as milliseconds after midnight. */
  const FIFTEEN_FIFTY_NINE_MS: int := ((15 * 60 + 59) * 60 + 59) * 1000 + 999

  /** `normalizeToLocalStartOfDay(millis)`: despite the name, 15:59:59.999 of
      the same local day, formatted. */
  function NormalizeToLocalStartOfDay(millis: int): string {
    MillisToServerIso(DayStart(millis) + FIFTEEN_FIFTY_NINE_MS)
  }

  /** The result is the local date of `millis` at 15:59:59.999. */
  lemma NormalizeKeepsDate(millis: int)
    ensures ToLocal(DayStart(millis) + FIFTEEN_FIFTY_NINE_MS)
         == ToLocal(millis).(hour := 15, minute := 59, second := 59, milli := 999)
  {
    var d := DayStart(millis);
    var k := (d + ZONE_OFFSET_MS) / DAY_MS;
    assert d + ZONE_OFFSET_MS == k * DAY_MS;
    ToLocalParts(millis, k, millis - d);
    ToLocalParts(d + FIFTEEN_FIFTY_NINE_MS, k, FIFTEEN_FIFTY_NINE_MS);
  }

  /** Instants of the first local day after the epoch fall on 1970-01-01,
      and the epoch itself is 08:00 there. */
  lemma FirstDayIs1970(m: int)
    requires -ZONE_OFFSET_MS <= m < DAY_MS - ZONE_OFFSET_MS
    ensures DateOf(ToLocal(m)) == Date(1970, 1, 1)
    ensures ToLocal(m).hour == (m + ZONE_OFFSET_MS) / HOUR_MS
  {
    var z := (m + ZONE_OFFSET_MS) / DAY_MS;
    DivModUnique(m + ZONE_OFFSET_MS, DAY_MS, 0, m + ZONE_OFFSET_MS);
    EpochIsNewYear1970();
    ToLocalParts(m, z, m + ZONE_OFFSET_MS);
  }

  lemma NewYear1970Text(t: LocalDateTime)
    requires ValidDateTime(t) && DateOf(t) == Date(1970, 1, 1)
    ensures FormatLocal(t)[..11] == "1970-01-01 "
  {
    assert DateText(t) == "1970-01-01" by {
      assert FixedDigits(1970, 4) == "1970";
      assert FixedDigits(1, 2) == "01";
    }
    assert FormatLocal(t)[..11] == DateText(t) + " ";
  }

  /** On the wire, instants of that first day carry the date 1970-01-01. */
  lemma FirstDayOnTheWire(m: int)
    requires -ZONE_OFFSET_MS <= m < DAY_MS - ZONE_OFFSET_MS
    ensures MillisToServerIso(m)[..11] == "1970-01-01 "
  {
    FirstDayIs1970(m);
    NewYear1970Text(ToLocal(m));
  }
}
