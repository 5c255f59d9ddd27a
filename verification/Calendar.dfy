/** Dates as the client validates them and the server counts them. The day number is the closed form
    of the proleptic Gregorian calendar; counting successors one at a time is its reference. */
module Calendar {
  import opened CStrings

  datatype Date = Date(year: int, month: int, day: int)

  const EPOCH := Date(1900, 1, 1)

  predicate Leap(y: int) {
    (y % 4 == 0 && y % 100 != 0) || y % 400 == 0
  }

  function MonthLength(y: int, m: int): int {
    if m == 2 then (if Leap(y) then 29 else 28)
    else if m == 4 || m == 6 || m == 9 || m == 11 then 30
    else 31
  }

  predicate Real(d: Date) {
    d.year >= 1 && 1 <= d.month <= 12 && 1 <= d.day <= MonthLength(d.year, d.month)
  }

  predicate Before(a: Date, b: Date) {
    a.year < b.year || (a.year == b.year && (a.month < b.month || (a.month == b.month && a.day < b.day)))
  }

  function DaysBeforeYear(y: int): int {
    365 * (y - 1) + (y - 1) / 4 - (y - 1) / 100 + (y - 1) / 400
  }

  function DaysBeforeMonth(y: int, m: int): int
    requires 1 <= m <= 13
    decreases m
  {
    if m == 1 then 0 else DaysBeforeMonth(y, m - 1) + MonthLength(y, m - 1)
  }

  function DayNumber(d: Date): int
    requires Real(d)
  {
    DaysBeforeYear(d.year) + DaysBeforeMonth(d.year, d.month) + d.day
  }

  /** Four hundred Gregorian years have 146097 days, and the next four hundred the same leap years. */
  lemma GregorianCycle(y: int)
    ensures DaysBeforeYear(y + 400) == DaysBeforeYear(y) + 146097 && (Leap(y + 400) <==> Leap(y))
  {
    assert (y + 399) / 4 == (y - 1) / 4 + 100 && (y + 399) / 100 == (y - 1) / 100 + 4;
  }

  lemma KnownYears()
    ensures Leap(2000) && Leap(2024) && !Leap(1900) && !Leap(2023) && !Leap(2100)
    ensures forall m :: 1 <= m <= 12 ==>
              MonthLength(2023, m) == [31, 28, 31, 30, 31, 30, 31, 31, 30, 31, 30, 31][m - 1]
    ensures MonthLength(2024, 2) == 29
  {
  }

  // ----- The reference: one day after another -----

  function NextDay(d: Date): Date {
    if d.day < MonthLength(d.year, d.month) then d.(day := d.day + 1)
    else if d.month < 12 then Date(d.year, d.month + 1, 1)
    else Date(d.year + 1, 1, 1)
  }

  function After(d: Date, n: nat): Date {
    if n == 0 then d else NextDay(After(d, n - 1))
  }

  lemma YearLength(y: int)
    ensures DaysBeforeYear(y + 1) == DaysBeforeYear(y) + 365 + (if Leap(y) then 1 else 0)
  {
    QuotientStep(y, 4);
    QuotientStep(y, 100);
    QuotientStep(y, 400);
    LeapDivisors(y);
  }

  lemma QuotientStep(y: int, k: int)
    requires k == 4 || k == 100 || k == 400
    ensures y / k == (y - 1) / k + (if y % k == 0 then 1 else 0)
  {
  }

  lemma LeapDivisors(y: int)
    ensures y % 400 == 0 ==> y % 100 == 0
    ensures y % 100 == 0 ==> y % 4 == 0
  {
  }

  lemma MonthsFillYear(y: int)
    ensures DaysBeforeYear(y) + DaysBeforeMonth(y, 13) == DaysBeforeYear(y + 1)
  {
    YearLength(y);
    MonthTable(y);
    assert DaysBeforeMonth(y, 13) == DaysBeforeMonth(y, 12) + 31;
  }

  lemma MonthTable(y: int)
    ensures DaysBeforeMonth(y, 12) == 334 + (if Leap(y) then 1 else 0)
  {
    assert DaysBeforeMonth(y, 3) == 59 + (if Leap(y) then 1 else 0);
    assert DaysBeforeMonth(y, 5) == DaysBeforeMonth(y, 3) + 61;
    assert DaysBeforeMonth(y, 7) == DaysBeforeMonth(y, 5) + 61;
    assert DaysBeforeMonth(y, 9) == DaysBeforeMonth(y, 7) + 62;
    assert DaysBeforeMonth(y, 11) == DaysBeforeMonth(y, 9) + 61;
  }

  lemma NewYearCountsOne(y: int)
    requires y >= 1
    ensures Real(Date(y + 1, 1, 1)) && Real(Date(y, 12, 31))
    ensures DayNumber(Date(y + 1, 1, 1)) == DayNumber(Date(y, 12, 31)) + 1
  {
    MonthsFillYear(y);
    assert DaysBeforeMonth(y, 13) == DaysBeforeMonth(y, 12) + 31;
  }

  lemma NextDayCountsOne(d: Date)
    requires Real(d)
    ensures Real(NextDay(d)) && DayNumber(NextDay(d)) == DayNumber(d) + 1 && Before(d, NextDay(d))
  {
    if d.day == MonthLength(d.year, d.month) {
      if d.month == 12 {
        NewYearCountsOne(d.year);
      } else {
        assert DaysBeforeMonth(d.year, d.month + 1) == DaysBeforeMonth(d.year, d.month) + MonthLength(d.year, d.month);
      }
    }
  }

  /** The closed form counts exactly as many days as there are successor steps. */
  lemma {:induction false} AfterCounts(d: Date, n: nat)
    requires Real(d)
    ensures Real(After(d, n)) && DayNumber(After(d, n)) == DayNumber(d) + n
  {
    if n > 0 {
      AfterCounts(d, n - 1);
      NextDayCountsOne(After(d, n - 1));
    }
  }

  // ----- Order -----

  lemma {:induction false} LaterMonth(y: int, m: int, n: int)
    requires 1 <= m < n <= 13
    ensures DaysBeforeMonth(y, m) + MonthLength(y, m) <= DaysBeforeMonth(y, n)
    decreases n
  {
    if m < n - 1 { LaterMonth(y, m, n - 1); }
  }

  lemma {:induction false} LaterYear(y: int, z: int)
    requires y <= z
    ensures DaysBeforeYear(y) <= DaysBeforeYear(z)
    decreases z - y
  {
    if y < z {
      YearLength(y);
      LaterYear(y + 1, z);
    }
  }

  /** The day number is strictly increasing. */
  lemma DayNumberIncreases(a: Date, b: Date)
    requires Real(a) && Real(b) && Before(a, b)
    ensures DayNumber(a) < DayNumber(b)
  {
    if a.year == b.year {
      if a.month < b.month { LaterMonth(a.year, a.month, b.month); }
    } else {
      WithinYear(a);
      LaterYear(a.year + 1, b.year);
      FromJanuary(b);
    }
  }

  lemma WithinYear(d: Date)
    requires Real(d)
    ensures DayNumber(d) <= DaysBeforeYear(d.year + 1)
  {
    LaterMonth(d.year, d.month, 13);
    MonthsFillYear(d.year);
  }

  lemma FromJanuary(d: Date)
    requires Real(d)
    ensures DayNumber(d) > DaysBeforeYear(d.year)
  {
    if d.month > 1 { LaterMonth(d.year, 1, d.month); }
  }

  /** Every real date from 1900 on is reached from 1 January 1900 by counting. */
  lemma Reached(d: Date)
    requires Real(d) && d.year >= 1900
    ensures DayNumber(d) >= DayNumber(EPOCH)
    ensures d == After(EPOCH, DayNumber(d) - DayNumber(EPOCH))
  {
    if d != EPOCH { DayNumberIncreases(EPOCH, d); }
    var e := After(EPOCH, DayNumber(d) - DayNumber(EPOCH));
    AfterCounts(EPOCH, DayNumber(d) - DayNumber(EPOCH));
    if Before(d, e) { DayNumberIncreases(d, e); }
    if Before(e, d) { DayNumberIncreases(e, d); }
  }

  // ----- Eight-digit strings -----

  predicate Digits(s: Bytes) {
    forall k :: 0 <= k < |s| ==> '0' <= s[k] <= '9'
  }

  function Digit(c: char): nat
    requires '0' <= c <= '9'
  {
    c as int - '0' as int
  }

  predicate TwoDigits(s: Bytes) {
    |s| == 2 && Digits(s)
  }

  function Pair(s: Bytes): nat
    requires TwoDigits(s)
  {
    10 * Digit(s[0]) + Digit(s[1])
  }

  /** sscanf(s, "%4d%2d%2d") on eight digits. */
  function ParseDate(s: Bytes): Date
    requires |s| == 8 && Digits(s)
  {
    Date(100 * Pair(s[..2]) + Pair(s[2..4]), Pair(s[4..6]), Pair(s[6..8]))
  }

  /** What validate_date_format is for: the string is the numeral of a real date from 1900 on. */
  ghost predicate NamesDate(s: Bytes) {
    exists n: nat :: After(EPOCH, n).year <= 9999 && s == Numeral(After(EPOCH, n))
  }

  function DigitChar(n: int): char {
    ('0' as int + n % 10) as char
  }

  function PrintPair(n: int): (s: Bytes)
    ensures TwoDigits(s)
  {
    [DigitChar(n / 10), DigitChar(n)]
  }

  /** printf("%04d%02d%02d"). */
  function Numeral(d: Date): (s: Bytes)
    ensures |s| == 8 && Digits(s)
  {
    PrintPair(d.year / 100) + PrintPair(d.year) + PrintPair(d.month) + PrintPair(d.day)
  }

  predicate ValidDate(s: Bytes) {
    |s| == 8 && Digits(s) && Real(ParseDate(s)) && ParseDate(s).year >= 1900
  }

  lemma PairOfPrint(n: int)
    ensures Pair(PrintPair(n)) == n % 100
  {
  }

  lemma PrintOfPair(s: Bytes, n: int)
    requires TwoDigits(s) && n % 100 == Pair(s)
    ensures PrintPair(n) == s
  {
    TensAndUnits(n, Digit(s[0]), Digit(s[1]));
  }

  lemma TensAndUnits(n: int, tens: int, units: int)
    requires 0 <= tens < 10 && 0 <= units < 10 && n % 100 == 10 * tens + units
    ensures n / 10 % 10 == tens && n % 10 == units
  {
    var hundreds := n / 100;
    assert n == 10 * (10 * hundreds + tens) + units;
    assert n / 10 == 10 * hundreds + tens;
  }

  lemma ParsePairs(a: Bytes, b: Bytes, c: Bytes, d: Bytes, date: Date)
    requires TwoDigits(a) && TwoDigits(b) && TwoDigits(c) && TwoDigits(d)
    requires 100 * Pair(a) + Pair(b) == date.year && Pair(c) == date.month && Pair(d) == date.day
    ensures ParseDate(a + b + c + d) == date
  {
    var s := a + b + c + d;
    assert s[..2] == a && s[2..4] == b && s[4..6] == c && s[6..8] == d;
  }

  lemma ParseNumeral(d: Date)
    requires 0 <= d.year <= 9999 && 0 <= d.month < 100 && 0 <= d.day < 100
    ensures ParseDate(Numeral(d)) == d
  {
    PrintedPairs(d);
    ParsePairs(PrintPair(d.year / 100), PrintPair(d.year), PrintPair(d.month), PrintPair(d.day), d);
  }

  lemma PrintedPairs(d: Date)
    requires 0 <= d.year <= 9999 && 0 <= d.month < 100 && 0 <= d.day < 100
    ensures 100 * Pair(PrintPair(d.year / 100)) + Pair(PrintPair(d.year)) == d.year
    ensures Pair(PrintPair(d.month)) == d.month && Pair(PrintPair(d.day)) == d.day
  {
    PairOfPrint(d.year / 100);
    PairOfPrint(d.year);
    PairOfPrint(d.month);
    PairOfPrint(d.day);
    Hundreds(d.year);
  }

  lemma Hundreds(n: int)
    requires 0 <= n < 10000
    ensures 0 <= n / 100 < 100 && n / 100 % 100 == n / 100 && 100 * (n / 100) + n % 100 == n
  {
  }

  lemma SplitHundreds(a: int, b: int)
    requires 0 <= b < 100
    ensures (100 * a + b) / 100 == a && (100 * a + b) % 100 == b
  {
  }

  lemma NumeralOfParse(s: Bytes)
    requires |s| == 8 && Digits(s)
    ensures Numeral(ParseDate(s)) == s && ParseDate(s).year <= 9999
  {
    var y := 100 * Pair(s[..2]) + Pair(s[2..4]);
    SplitHundreds(Pair(s[..2]), Pair(s[2..4]));
    PrintOfPair(s[..2], y / 100);
    PrintOfPair(s[2..4], y);
    PrintOfPair(s[4..6], Pair(s[4..6]));
    PrintOfPair(s[6..8], Pair(s[6..8]));
    assert s == s[..2] + s[2..4] + s[4..6] + s[6..8];
  }

  /** The field checks accept exactly the numerals of dates reached by counting days from 1900. */
  lemma ValidDateNames(s: Bytes)
    ensures ValidDate(s) <==> NamesDate(s)
  {
    if ValidDate(s) {
      NumeralOfParse(s);
      Reached(ParseDate(s));
    }
    if NamesDate(s) {
      var n: nat :| After(EPOCH, n).year <= 9999 && s == Numeral(After(EPOCH, n));
      NumeralIsValid(n);
    }
  }

  lemma NumeralIsValid(n: nat)
    requires After(EPOCH, n).year <= 9999
    ensures ValidDate(Numeral(After(EPOCH, n)))
  {
    AfterCounts(EPOCH, n);
    YearsGrow(n);
    ParseNumeral(After(EPOCH, n));
  }

  lemma {:induction false} YearsGrow(n: nat)
    ensures After(EPOCH, n).year >= 1900
  {
    if n > 0 { YearsGrow(n - 1); }
  }

  /** validate_date_format. */
  method ValidateDateFormat(date: Bytes) returns (ok: bool)
    ensures ok <==> NamesDate(date)
  {
    ValidDateNames(date);
    if |date| != 8 { return false; }
    var i := 0;
    while i < 8
      invariant 0 <= i <= 8
      invariant forall k :: 0 <= k < i ==> '0' <= date[k] <= '9'
    {
      if !('0' <= date[i] <= '9') { return false; }
      i := i + 1;
    }
    var year := Digit(date[0]) * 1000 + Digit(date[1]) * 100 + Digit(date[2]) * 10 + Digit(date[3]);
    var month := Digit(date[4]) * 10 + Digit(date[5]);
    var day := Digit(date[6]) * 10 + Digit(date[7]);
    FieldValues(date);
    ok := CheckFields(year, month, day);
  }

  lemma FieldValues(s: Bytes)
    requires |s| == 8 && Digits(s)
    ensures ParseDate(s) == Date(Digit(s[0]) * 1000 + Digit(s[1]) * 100 + Digit(s[2]) * 10 + Digit(s[3]),
                                 Digit(s[4]) * 10 + Digit(s[5]), Digit(s[6]) * 10 + Digit(s[7]))
  {
  }

  /** The range checks of validate_date_format, in source order. */
  method CheckFields(year: nat, month: nat, day: nat) returns (ok: bool)
    ensures ok <==> year >= 1900 && Real(Date(year, month, day))
  {
    if year < 1900 { return false; }
    if month < 1 || month > 12 { return false; }
    if day < 1 || day > 31 { return false; }
    if month == 2 {
      var isLeap := (year % 4 == 0 && year % 100 != 0) || year % 400 == 0;
      if isLeap && day > 29 { return false; }
      if !isLeap && day > 28 { return false; }
    }
    if (month == 4 || month == 6 || month == 9 || month == 11) && day > 30 { return false; }
    return true;
  }

  // ----- strcmp order is date order -----

  /** The value of a digit string read after `acc`. */
  function Decimal(s: Bytes, acc: nat): nat
    requires Digits(s)
  {
    if s == [] then acc else Decimal(s[1..], 10 * acc + Digit(s[0]))
  }

  lemma {:induction false} CompareDigits(a: Bytes, b: Bytes, x: nat, y: nat)
    requires |a| == |b| && Digits(a) && Digits(b) && x <= y
    ensures x < y ==> Decimal(a, x) < Decimal(b, y)
    ensures x == y ==> (StrCmp(a, b) < 0 <==> Decimal(a, x) < Decimal(b, y))
    ensures x == y ==> (StrCmp(a, b) > 0 <==> Decimal(a, x) > Decimal(b, y))
    decreases |a|
  {
    if a != [] {
      var x', y' := 10 * x + Digit(a[0]), 10 * y + Digit(b[0]);
      if x' <= y' { CompareDigits(a[1..], b[1..], x', y'); }
      if y' <= x' { CompareDigits(b[1..], a[1..], y', x'); }
    }
  }

  lemma DecimalTwice(s: Bytes, from: nat, acc: nat)
    requires from + 2 <= |s| && Digits(s)
    ensures Decimal(s[from..], acc) == Decimal(s[from + 2..], 100 * acc + Pair(s[from..from + 2]))
  {
    assert s[from..][1..] == s[from + 1..] && s[from + 1..][1..] == s[from + 2..];
  }

  lemma DecimalFourTimes(s: Bytes, from: nat, acc: nat)
    requires from + 4 <= |s| && Digits(s)
    ensures Decimal(s[from..], acc) ==
            Decimal(s[from + 4..], 10000 * acc + 100 * Pair(s[from..from + 2]) + Pair(s[from + 2..from + 4]))
  {
    DecimalTwice(s, from, acc);
    DecimalTwice(s, from + 2, 100 * acc + Pair(s[from..from + 2]));
  }

  lemma DecimalOfDate(s: Bytes)
    requires |s| == 8 && Digits(s)
    ensures var d := ParseDate(s); Decimal(s, 0) == 10000 * d.year + 100 * d.month + d.day
  {
    assert s[0..] == s && s[0..2] == s[..2];
    DecimalFourTimes(s, 0, 0);
    DecimalFourTimes(s, 4, 100 * Pair(s[..2]) + Pair(s[2..4]));
    assert s[8..] == [];
  }

  /** On eight-digit strings strcmp is the order of the dates. */
  lemma StrCmpIsDateOrder(s: Bytes, e: Bytes)
    requires |s| == |e| == 8 && Digits(s) && Digits(e)
    ensures StrCmp(s, e) < 0 <==> Before(ParseDate(s), ParseDate(e))
    ensures StrCmp(s, e) > 0 <==> Before(ParseDate(e), ParseDate(s))
  {
    CompareDigits(s, e, 0, 0);
    DecimalOfDate(s);
    DecimalOfDate(e);
  }
}
