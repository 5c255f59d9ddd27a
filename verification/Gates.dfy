/** The two 7-day checks: the client's 365/30 arithmetic against the server's elapsed-days count. */
module Gates {
  import opened CStrings
  import opened Calendar

  const SECONDS_A_DAY := 86400

  /** The server's clock: its standard time is `offset` seconds ahead of UTC, and mktime knows the times from
      1970 to `last` (on Windows the end of the year 3000). */
  datatype Clock = Clock(offset: int, last: int)

  /** Whole minutes, less than a day. */
  predicate GoodClock(clock: Clock) {
    clock.offset % 60 == 0 && -SECONDS_A_DAY < clock.offset < SECONDS_A_DAY
  }

  /** Midnight of a date in UTC seconds since 1970, known to mktime or not. */
  function Midnight(d: Date, clock: Clock): int
    requires Real(d)
  {
    SECONDS_A_DAY * (DayNumber(d) - DayNumber(Date(1970, 1, 1))) - clock.offset
  }

  predicate Known(d: Date, clock: Clock)
    requires Real(d)
  {
    0 <= Midnight(d, clock) <= clock.last
  }

  /** mktime with tm_isdst == 0: the seconds, or -1. */
  function MkTime(d: Date, clock: Clock): int
    requires Real(d)
  {
    if Known(d, clock) then Midnight(d, clock) else -1
  }

  /** C division: the quotient truncated toward zero. */
  function TruncDiv(a: int, b: int): int
    requires b > 0
  {
    if a >= 0 then a / b else -((-a) / b)
  }

  /** days_between on strings that name dates. */
  function DaysBetween(s: Bytes, e: Bytes, clock: Clock): int
    requires ValidDate(s) && ValidDate(e)
  {
    TruncDiv(MkTime(ParseDate(e), clock) - MkTime(ParseDate(s), clock), SECONDS_A_DAY) + 1
  }

  predicate ServerRefuses(s: Bytes, e: Bytes, clock: Clock)
    requires ValidDate(s) && ValidDate(e)
  {
    DaysBetween(s, e, clock) > 7
  }

  function Simple(d: Date): int {
    d.year * 365 + d.month * 30 + d.day
  }

  function Elapsed(a: Date, b: Date): int
    requires Real(a) && Real(b)
  {
    DayNumber(b) - DayNumber(a)
  }

  function Simplified(a: Date, b: Date): int {
    Simple(b) - Simple(a)
  }

  /** The checks get_period_input makes on the two strings it has read. */
  predicate ClientAccepts(s: Bytes, e: Bytes) {
    ValidDate(s) && ValidDate(e) && StrCmp(s, e) <= 0 && Simplified(ParseDate(s), ParseDate(e)) <= 6
  }

  predicate SameMonth(a: Date, b: Date) {
    a.year == b.year && a.month == b.month
  }

  predicate NextMonth(a: Date, b: Date) {
    if a.month == 12 then b.year == a.year + 1 && b.month == 1 else b.year == a.year && b.month == a.month + 1
  }

  /** The range runs over the end of a 31-day month other than December. */
  predicate CrossesLongMonth(a: Date, b: Date) {
    NextMonth(a, b) && a.month != 12 && MonthLength(a.year, a.month) == 31
  }

  predicate CrossesFebruary(a: Date, b: Date) {
    NextMonth(a, b) && a.month == 2
  }

  predicate CrossesNewYear(a: Date, b: Date) {
    NextMonth(a, b) && a.month == 12
  }

  /** Between dates mktime knows it counts the days, both ends included. */
  lemma DaysBetweenCounts(s: Bytes, e: Bytes, clock: Clock)
    requires ValidDate(s) && ValidDate(e) && Known(ParseDate(s), clock) && Known(ParseDate(e), clock)
    ensures DaysBetween(s, e, clock) == Elapsed(ParseDate(s), ParseDate(e)) + 1
  {
    var n := Elapsed(ParseDate(s), ParseDate(e));
    assert MkTime(ParseDate(e), clock) - MkTime(ParseDate(s), clock) == SECONDS_A_DAY * n;
    WholeDays(n);
  }

  /** What the server's check comes to on all dates. An end it does not know is never refused; a start it does
      not know counts as the second before 1970. */
  lemma ServerRefusesExactly(s: Bytes, e: Bytes, clock: Clock)
    requires ValidDate(s) && ValidDate(e)
    ensures var a, b := ParseDate(s), ParseDate(e);
            ServerRefuses(s, e, clock) <==>
            Known(b, clock) &&
            (if Known(a, clock) then Elapsed(a, b) >= 7 else Midnight(b, clock) + 1 >= 7 * SECONDS_A_DAY)
  {
    var a, b := ParseDate(s), ParseDate(e);
    if Known(a, clock) && Known(b, clock) {
      DaysBetweenCounts(s, e, clock);
    } else {
      SevenDays(MkTime(b, clock) - MkTime(a, clock));
    }
  }

  lemma SevenDays(seconds: int)
    ensures TruncDiv(seconds, SECONDS_A_DAY) + 1 > 7 <==> seconds >= 7 * SECONDS_A_DAY
  {
  }

  lemma MidnightElapsed(a: Date, b: Date, clock: Clock)
    requires Real(a) && Real(b)
    ensures Midnight(b, clock) - Midnight(a, clock) == SECONDS_A_DAY * Elapsed(a, b)
  {
  }

  lemma WholeDays(n: int)
    ensures TruncDiv(SECONDS_A_DAY * n, SECONDS_A_DAY) == n
  {
    if n < 0 { assert -(SECONDS_A_DAY * n) == SECONDS_A_DAY * (-n); }
  }

  lemma ElapsedNextMonth(a: Date, b: Date)
    requires Real(a) && Real(b) && NextMonth(a, b)
    ensures Elapsed(a, b) == MonthLength(a.year, a.month) - a.day + b.day
    ensures Simplified(a, b) == (if a.month == 12 then 35 else 30) - a.day + b.day
  {
    if a.month == 12 {
      MonthsFillYear(a.year);
      assert DaysBeforeMonth(a.year, 13) == DaysBeforeMonth(a.year, 12) + 31;
    } else {
      assert DaysBeforeMonth(a.year, b.month) == DaysBeforeMonth(a.year, a.month) + MonthLength(a.year, a.month);
    }
  }

  /** Two or more months apart both counts are far above the limit. */
  lemma FarApart(a: Date, b: Date)
    requires Real(a) && Real(b) && Before(a, b) && !SameMonth(a, b) && !NextMonth(a, b)
    ensures Elapsed(a, b) > 28 && Simplified(a, b) > 28
  {
    // c is the last day of the month after a's
    var c := if a.month < 12 then Date(a.year, a.month + 1, MonthLength(a.year, a.month + 1))
             else Date(a.year + 1, 1, 31);
    ElapsedNextMonth(a, c);
    DayNumberIncreases(c, b);
  }

  /** How the client's count errs on any range: by the leap days it skips and at most 6 days more. */
  lemma ApproximationError(a: Date, b: Date)
    requires Real(a) && Real(b)
    ensures -6 <= Elapsed(a, b) - Simplified(a, b) - (LeapDays(b.year) - LeapDays(a.year)) <= 6
  {
    MonthDrift(a.year, a.month);
    MonthDrift(b.year, b.month);
  }

  /** 29 Februaries in the years 1 to y - 1. */
  function LeapDays(y: int): int {
    (y - 1) / 4 - (y - 1) / 100 + (y - 1) / 400
  }

  lemma {:induction false} MonthDrift(y: int, m: int)
    requires 1 <= m <= 12
    ensures -1 <= DaysBeforeMonth(y, m) - 30 * (m - 1) <= 5
    ensures m <= 2 ==> DaysBeforeMonth(y, m) - 30 * (m - 1) == m - 1
    ensures m > 2 ==> DaysBeforeMonth(y, m) - 30 * (m - 1) == (if Leap(y) then 0 else -1) + LongMonths(m)
    decreases m
  {
    if m > 1 { MonthDrift(y, m - 1); }
  }

  /** 31-day months from March to the month before m. */
  function LongMonths(m: int): int {
    if m <= 3 then 0 else LongMonths(m - 1) + (if m == 5 || m == 7 || m == 10 || m == 12 then 0 else 1)
  }

  /** Where the two checks disagree, completely: in both directions, for every ordered pair of dates. */
  lemma GatesDisagree(a: Date, b: Date)
    requires Real(a) && Real(b) && !Before(b, a)
    ensures Simplified(a, b) <= 6 && Elapsed(a, b) + 1 > 7 <==>
            CrossesLongMonth(a, b) && Elapsed(a, b) == 7
    ensures Simplified(a, b) > 6 && Elapsed(a, b) + 1 <= 7 <==>
            (CrossesFebruary(a, b) && !Leap(a.year) && 5 <= Elapsed(a, b) <= 6) ||
            (CrossesFebruary(a, b) && Leap(a.year) && Elapsed(a, b) == 6) ||
            (CrossesNewYear(a, b) && 3 <= Elapsed(a, b) <= 6)
  {
    if SameMonth(a, b) {
    } else if NextMonth(a, b) {
      ElapsedNextMonth(a, b);
    } else {
      FarApart(a, b);
    }
  }

  /** What the client lets through: one month or two adjoining ones, and never more than 8 days. */
  lemma ClientRange(a: Date, b: Date)
    requires Real(a) && Real(b) && !Before(b, a) && Simplified(a, b) <= 6
    ensures SameMonth(a, b) || NextMonth(a, b)
    ensures 1 <= Elapsed(a, b) + 1 <= 8
    ensures Elapsed(a, b) + 1 == 8 <==> Simplified(a, b) == 6 && CrossesLongMonth(a, b)
  {
    if Before(a, b) { DayNumberIncreases(a, b); }
    if SameMonth(a, b) {
    } else if NextMonth(a, b) {
      ElapsedNextMonth(a, b);
    } else {
      FarApart(a, b);
    }
  }

  /** The same on the strings the two programs exchange, for all years: an accepted period is refused by the
      server exactly when it knows both dates and the eight days run over the end of a long month. */
  lemma AcceptedThenRefused(s: Bytes, e: Bytes, clock: Clock)
    requires ClientAccepts(s, e) && GoodClock(clock)
    ensures var a, b := ParseDate(s), ParseDate(e);
            ServerRefuses(s, e, clock) <==>
            Known(a, clock) && Known(b, clock) && Elapsed(a, b) == 7 && CrossesLongMonth(a, b)
  {
    var a, b := ParseDate(s), ParseDate(e);
    StrCmpIsDateOrder(s, e);
    ServerRefusesExactly(s, e, clock);
    GatesDisagree(a, b);
    ClientRange(a, b);
    MidnightElapsed(a, b, clock);
    if !Known(a, clock) && Known(b, clock) { NotTheLastSecond(a, clock); }
  }

  /** No midnight is the second before 1970. */
  lemma NotTheLastSecond(d: Date, clock: Clock)
    requires Real(d) && GoodClock(clock)
    ensures Midnight(d, clock) != -1
  {
    WholeMinutes(DayNumber(d) - DayNumber(Date(1970, 1, 1)), clock.offset);
  }

  lemma WholeMinutes(days: int, offset: int)
    requires offset % 60 == 0
    ensures SECONDS_A_DAY * days - offset != -1
  {
    var minutes := offset / 60;
    assert offset == 60 * minutes;
    assert SECONDS_A_DAY * days - offset == 60 * (1440 * days - minutes);
  }

  /** An ordered pair of valid dates that the client turns away although the server would serve it. */
  lemma RefusedButServable(s: Bytes, e: Bytes, clock: Clock)
    requires ValidDate(s) && ValidDate(e) && StrCmp(s, e) <= 0
    ensures var a, b := ParseDate(s), ParseDate(e);
            !ClientAccepts(s, e) && !ServerRefuses(s, e, clock) <==>
            if Known(a, clock) && Known(b, clock) then
              || (CrossesFebruary(a, b) && Elapsed(a, b) == 6)
              || (CrossesFebruary(a, b) && Elapsed(a, b) == 5 && !Leap(a.year))
              || (CrossesNewYear(a, b) && 3 <= Elapsed(a, b) <= 6)
            else Simplified(a, b) > 6 && (Known(b, clock) ==> Midnight(b, clock) + 1 < 7 * SECONDS_A_DAY)
  {
    StrCmpIsDateOrder(s, e);
    ServerRefusesExactly(s, e, clock);
    GatesDisagree(ParseDate(s), ParseDate(e));
  }

  /** The clock of the country the service is for. */
  const KOREA := Clock(9 * 3600, 32535215999)

  /** Accepted by the client and then refused by the server: 25 January to 1 February 2024. */
  lemma AcceptedThenRefusedAt()
    ensures ClientAccepts("20240125", "20240201") && ServerRefuses("20240125", "20240201", KOREA)
  {
    DateAt("20240125", Date(2024, 1, 25));
    DateAt("20240201", Date(2024, 2, 1));
    PairAt("20240125", "20240201", Date(2024, 1, 25), Date(2024, 2, 1));
  }

  /** Refused by the client although the server would serve it: over the end of February 2023 ... */
  lemma RefusedButServableAt()
    ensures !ClientAccepts("20230226", "20230303") && StrCmp("20230226", "20230303") <= 0
    ensures ValidDate("20230226") && ValidDate("20230303") && !ServerRefuses("20230226", "20230303", KOREA)
  {
    DateAt("20230226", Date(2023, 2, 26));
    DateAt("20230303", Date(2023, 3, 3));
    PairAt("20230226", "20230303", Date(2023, 2, 26), Date(2023, 3, 3));
  }

  /** ... and over a new year. */
  lemma RefusedOverNewYearAt()
    ensures !ClientAccepts("20231230", "20240102") && StrCmp("20231230", "20240102") <= 0
    ensures ValidDate("20231230") && ValidDate("20240102") && !ServerRefuses("20231230", "20240102", KOREA)
  {
    DateAt("20231230", Date(2023, 12, 30));
    DateAt("20240102", Date(2024, 1, 2));
    PairAt("20231230", "20240102", Date(2023, 12, 30), Date(2024, 1, 2));
  }

  lemma DateAt(s: Bytes, d: Date)
    requires |s| == 8 && Digits(s) && Real(d) && d.year >= 1900
    requires d.year == 1000 * Digit(s[0]) + 100 * Digit(s[1]) + 10 * Digit(s[2]) + Digit(s[3])
    requires d.month == 10 * Digit(s[4]) + Digit(s[5]) && d.day == 10 * Digit(s[6]) + Digit(s[7])
    ensures ValidDate(s) && ParseDate(s) == d
  {
    assert s[..2][0] == s[0] && s[..2][1] == s[1] && s[2..4][0] == s[2] && s[2..4][1] == s[3];
    assert s[4..6][0] == s[4] && s[4..6][1] == s[5] && s[6..8][0] == s[6] && s[6..8][1] == s[7];
  }

  lemma PairAt(s: Bytes, e: Bytes, a: Date, b: Date)
    requires ValidDate(s) && ValidDate(e) && ParseDate(s) == a && ParseDate(e) == b && NextMonth(a, b)
    requires 1971 <= a.year && b.year <= 2999
    ensures StrCmp(s, e) <= 0
    ensures DaysBetween(s, e, KOREA) == MonthLength(a.year, a.month) - a.day + b.day + 1
    ensures ClientAccepts(s, e) <==> (if a.month == 12 then 35 else 30) - a.day + b.day <= 6
  {
    ClientAt(s, e, a, b);
    KnownInKorea(a);
    KnownInKorea(b);
    DaysBetweenCounts(s, e, KOREA);
    ElapsedNextMonth(a, b);
  }

  lemma ClientAt(s: Bytes, e: Bytes, a: Date, b: Date)
    requires ValidDate(s) && ValidDate(e) && ParseDate(s) == a && ParseDate(e) == b && NextMonth(a, b)
    ensures StrCmp(s, e) <= 0
    ensures ClientAccepts(s, e) <==> (if a.month == 12 then 35 else 30) - a.day + b.day <= 6
  {
    StrCmpIsDateOrder(s, e);
    ElapsedNextMonth(a, b);
  }

  lemma KnownInKorea(d: Date)
    requires Real(d) && 1971 <= d.year <= 2999
    ensures Known(d, KOREA)
  {
    DayNumberIncreases(Date(1970, 12, 31), d);
    DayNumberIncreases(d, Date(3000, 1, 1));
  }

  lemma UnknownInKorea(d: Date)
    requires Real(d) && d.year < 1970
    ensures !Known(d, KOREA)
  {
    DayNumberIncreases(d, Date(1970, 1, 1));
  }

  /** Before 1970 the check is void: the eight days from 25 January 1960 pass both ends. */
  lemma UnknownYearsPassAt()
    ensures ClientAccepts("19600125", "19600201") && !ServerRefuses("19600125", "19600201", KOREA)
  {
    DateAt("19600125", Date(1960, 1, 25));
    DateAt("19600201", Date(1960, 2, 1));
    ClientAt("19600125", "19600201", Date(1960, 1, 25), Date(1960, 2, 1));
    UnknownInKorea(Date(1960, 2, 1));
    ServerRefusesExactly("19600125", "19600201", KOREA);
  }
}
