/**
 * Calendar dates, their `YYYY-MM-DD` keys built by `getTodayLocalDate`
 * (src/db/dateUtils.ts), and calendar day numbers.
 *
 * The entry store and the streak statistics compare date keys as strings. The
 * lemmas here show that for four-digit years this string order is the
 * chronological order and that a key names exactly one date, so the rest of
 * the model keys entries by calendar day number instead; the previous calendar
 * day is then the day number minus one.
 */
module Dates {
  import opened JsText
  import opened Wrappers

  /** A calendar date: year, month 1..12, day of the month. */
  datatype Date = Date(year: int, month: int, day: int)

  /**
   * What the JavaScript `Date` getters report for the current instant in the
   * device's time zone: `getFullYear()`, `getMonth()` (0..11) and `getDate()`.
   */
  datatype LocalClock = LocalClock(fullYear: int, monthIndex: int, date: int)

  predicate IsLeapYear(y: int) {
    (y % 4 == 0 && y % 100 != 0) || y % 400 == 0
  }

  function DaysInMonth(y: int, m: int): (n: int)
    requires 1 <= m <= 12
    ensures 28 <= n <= 31
  {
    if m == 2 then (if IsLeapYear(y) then 29 else 28)
    else if m == 4 || m == 6 || m == 9 || m == 11 then 30
    else 31
  }

  function YearLength(y: int): int {
    if IsLeapYear(y) then 366 else 365
  }

  /** A real date of the proleptic Gregorian calendar, from year 1 on. */
  predicate ValidDate(d: Date) {
    1 <= d.year && 1 <= d.month <= 12 && 1 <= d.day <= DaysInMonth(d.year, d.month)
  }

  /** Days in the years before `y`, counted from 1 January of year 1. */
  function DaysBeforeYear(y: int): nat
    requires y >= 1
    decreases y
  {
    if y == 1 then 0 else DaysBeforeYear(y - 1) + YearLength(y - 1)
  }

  /** Days in the months of year `y` before month `m`. */
  function DaysBeforeMonth(y: int, m: int): nat
    requires 1 <= m <= 13
    decreases m
  {
    if m == 1 then 0 else DaysBeforeMonth(y, m - 1) + DaysInMonth(y, m - 1)
  }

  /** The calendar day number of a date: 1 January of year 1 is day 0. */
  function DayNumber(d: Date): int
    requires ValidDate(d)
  {
    DaysBeforeYear(d.year) + DaysBeforeMonth(d.year, d.month) + d.day - 1
  }

  /** Chronological order of dates: by year, then month, then day. */
  predicate Before(a: Date, b: Date) {
    a.year < b.year
    || (a.year == b.year && (a.month < b.month || (a.month == b.month && a.day < b.day)))
  }

  /** The twelve months make up the whole year. */
  lemma MonthsFillYear(y: int)
    ensures DaysBeforeMonth(y, 13) == YearLength(y)
  {
    assert DaysBeforeMonth(y, 3) == 31 + DaysInMonth(y, 2);
    assert DaysBeforeMonth(y, 13) == 31 + DaysInMonth(y, 2) + 306;
  }

  lemma {:induction false} DaysBeforeMonthGrows(y: int, m1: int, m2: int)
    requires 1 <= m1 < m2 <= 13
    ensures DaysBeforeMonth(y, m1) + DaysInMonth(y, m1) <= DaysBeforeMonth(y, m2)
    decreases m2
  {
    if m1 < m2 - 1 {
      DaysBeforeMonthGrows(y, m1, m2 - 1);
    }
  }

  lemma {:induction false} DaysBeforeYearGrows(y1: int, y2: int)
    requires 1 <= y1 < y2
    ensures DaysBeforeYear(y1) + YearLength(y1) <= DaysBeforeYear(y2)
    decreases y2
  {
    if y1 < y2 - 1 {
      DaysBeforeYearGrows(y1, y2 - 1);
    }
  }

  /** An earlier valid date has a smaller day number. */
  lemma BeforeHasSmallerDayNumber(a: Date, b: Date)
    requires ValidDate(a) && ValidDate(b) && Before(a, b)
    ensures DayNumber(a) < DayNumber(b)
  {
    if a.year < b.year {
      DaysBeforeYearGrows(a.year, b.year);
      MonthsFillYear(a.year);
      DaysBeforeMonthGrows(a.year, a.month, 13);
    } else if a.month < b.month {
      DaysBeforeMonthGrows(a.year, a.month, b.month);
    }
  }

  /**
   * Chronological order of valid dates is the order of their day numbers, and
   * two valid dates with the same day number are the same date.
   */
  lemma DayNumberOrder(a: Date, b: Date)
    requires ValidDate(a) && ValidDate(b)
    ensures Before(a, b) <==> DayNumber(a) < DayNumber(b)
    ensures a == b <==> DayNumber(a) == DayNumber(b)
  {
    if Before(a, b) {
      BeforeHasSmallerDayNumber(a, b);
    } else if Before(b, a) {
      BeforeHasSmallerDayNumber(b, a);
    }
  }

  /** The calendar day before `d`: what `setDate(getDate() - 1)` steps to. */
  function PrevDay(d: Date): Date
    requires ValidDate(d)
  {
    if d.day > 1 then Date(d.year, d.month, d.day - 1)
    else if d.month > 1 then Date(d.year, d.month - 1, DaysInMonth(d.year, d.month - 1))
    else Date(d.year - 1, 12, 31)
  }

  /** Stepping back one calendar day lowers the day number by exactly one. */
  lemma PrevDayStep(d: Date)
    requires ValidDate(d) && d != Date(1, 1, 1)
    ensures ValidDate(PrevDay(d)) && DayNumber(PrevDay(d)) == DayNumber(d) - 1
  {
    if d.day == 1 && d.month == 1 {
      var y := d.year - 1;
      MonthsFillYear(y);
      assert DaysBeforeMonth(y, 13) == DaysBeforeMonth(y, 12) + 31;
      assert DaysBeforeYear(d.year) == DaysBeforeYear(y) + YearLength(y);
    } else if d.day == 1 {
      assert DaysBeforeMonth(d.year, d.month) == DaysBeforeMonth(d.year, d.month - 1) + DaysInMonth(d.year, d.month - 1);
    }
  }

  /** Two-digit zero padding, as `String(n).padStart(2, '0')`. */
  function Pad2(n: int): string {
    PadStart(IntToString(n), 2, '0')
  }

  /** The `YYYY-MM-DD` key of a date, as `getTodayLocalDate` assembles it. */
  function DateKey(d: Date): string {
    IntToString(d.year) + "-" + Pad2(d.month) + "-" + Pad2(d.day)
  }

  /** The date the clock's getters describe; `getMonth()` counts months from 0. */
  function LocalDate(now: LocalClock): Date {
    Date(now.fullYear, now.monthIndex + 1, now.date)
  }

  /** The dates whose key has the fixed `YYYY-MM-DD` shape. */
  predicate KeyableDate(d: Date) {
    1000 <= d.year <= 9999 && 0 <= d.month < 100 && 0 <= d.day < 100
  }

  /** Reads a `YYYY-MM-DD` key back into year, month and day. */
  function ParseKey(key: string): Option<Date> {
    if |key| == 10 && key[4] == '-' && key[7] == '-'
       && AllDigits(key[..4]) && AllDigits(key[5..7]) && AllDigits(key[8..])
    then Some(Date(DigitsValue(key[..4]), DigitsValue(key[5..7]), DigitsValue(key[8..])))
    else None
  }

  /** The three digit groups of a key, with their lengths and values. */
  lemma KeyParts(d: Date)
    requires KeyableDate(d)
    ensures |IntToString(d.year)| == 4 && AllDigits(IntToString(d.year))
    ensures DigitsValue(IntToString(d.year)) == d.year
    ensures |Pad2(d.month)| == 2 && AllDigits(Pad2(d.month)) && DigitsValue(Pad2(d.month)) == d.month
    ensures |Pad2(d.day)| == 2 && AllDigits(Pad2(d.day)) && DigitsValue(Pad2(d.day)) == d.day
    ensures DateKey(d) == IntToString(d.year) + ("-" + (Pad2(d.month) + ("-" + Pad2(d.day))))
  {
    YearDigits(d.year);
    Pad2Digits(d.month);
    Pad2Digits(d.day);
    SeqAssoc5(IntToString(d.year), "-", Pad2(d.month), "-", Pad2(d.day));
  }

  lemma YearDigits(y: int)
    requires 1000 <= y <= 9999
    ensures |IntToString(y)| == 4 && AllDigits(IntToString(y)) && DigitsValue(IntToString(y)) == y
  {
    NatToStringLength(y);
  }

  lemma Pad2Digits(n: int)
    requires 0 <= n < 100
    ensures |Pad2(n)| == 2 && AllDigits(Pad2(n)) && DigitsValue(Pad2(n)) == n
  {
    PadTwoDigits(n);
  }

  lemma SeqAssoc5(a: string, b: string, c: string, d: string, e: string)
    ensures a + b + c + d + e == a + (b + (c + (d + e)))
  {
  }

  /** `getTodayLocalDate`: decimal year, '-', two-digit month, '-', two-digit day. */
  function GetTodayLocalDate(now: LocalClock): string {
    DateKey(LocalDate(now))
  }

  /**
   * For the clock's ranges and a four-digit year, today's key has length 10,
   * '-' at indices 4 and 7, a month in 1..12, and it reads back as the
   * clock's date.
   */
  lemma TodayKeyReadsBack(now: LocalClock)
    requires 1000 <= now.fullYear <= 9999 && 0 <= now.monthIndex <= 11 && 1 <= now.date <= 31
    ensures var key := GetTodayLocalDate(now);
      && |key| == 10 && key[4] == '-' && key[7] == '-'
      && ParseKey(key) == Some(Date(now.fullYear, now.monthIndex + 1, now.date))
      && 1 <= ParseKey(key).value.month <= 12
  {
    KeyRoundTrip(LocalDate(now));
  }

  /** A key reads back as the date it was built from. */
  lemma KeyRoundTrip(d: Date)
    requires KeyableDate(d)
    ensures var key := DateKey(d);
            |key| == 10 && key[4] == '-' && key[7] == '-' && ParseKey(key) == Some(d)
  {
    KeyParts(d);
    var y, m, dd := IntToString(d.year), Pad2(d.month), Pad2(d.day);
    SlicesOfKey(DateKey(d), y, m, dd);
  }

  /** Where the groups of a `YYYY-MM-DD` string sit. */
  lemma SlicesOfKey(key: string, y: string, m: string, dd: string)
    requires |y| == 4 && |m| == 2 && |dd| == 2
    requires key == y + ("-" + (m + ("-" + dd)))
    ensures |key| == 10 && key[4] == '-' && key[7] == '-'
    ensures key[..4] == y && key[5..7] == m && key[8..] == dd
  {
    var r1 := "-" + (m + ("-" + dd));
    var r2 := m + ("-" + dd);
    var r3 := "-" + dd;
    assert key[..4] == y && key[4..] == r1;
    assert r1[1..] == r2 && r2[..2] == m && r2[2..] == r3 && r3[1..] == dd;
    assert key[5..7] == r1[1..][..2];
    assert key[8..] == r1[1..][2..][1..];
  }

  /** Distinct dates have distinct keys. */
  lemma KeyInjective(a: Date, b: Date)
    requires KeyableDate(a) && KeyableDate(b)
    ensures DateKey(a) == DateKey(b) <==> a == b
  {
    KeyRoundTrip(a);
    KeyRoundTrip(b);
  }

  /** For four-digit years, string order of keys is chronological order. */
  lemma KeyOrderIsChronological(a: Date, b: Date)
    requires KeyableDate(a) && KeyableDate(b)
    ensures LexLess(DateKey(a), DateKey(b)) <==> Before(a, b)
  {
    KeyParts(a);
    KeyParts(b);
    var y1, m1, d1 := IntToString(a.year), Pad2(a.month), Pad2(a.day);
    var y2, m2, d2 := IntToString(b.year), Pad2(b.month), Pad2(b.day);
    DigitsOrder(y1, y2);
    DigitsOrder(m1, m2);
    DigitsOrder(d1, d2);
    LexAppend(y1, "-" + (m1 + ("-" + d1)), y2, "-" + (m2 + ("-" + d2)));
    LexAppend("-", m1 + ("-" + d1), "-", m2 + ("-" + d2));
    LexAppend(m1, "-" + d1, m2, "-" + d2);
    LexAppend("-", d1, "-", d2);
  }

  /**
   * For real dates with four-digit years, comparing keys as strings, as the
   * store's `ORDER BY date` and the streak loop's `<` do, is comparing day
   * numbers, and equal keys are equal day numbers.
   */
  lemma KeyOrderIsDayOrder(a: Date, b: Date)
    requires ValidDate(a) && ValidDate(b) && a.year <= 9999 && b.year <= 9999
    requires a.year >= 1000 && b.year >= 1000
    ensures LexLess(DateKey(a), DateKey(b)) <==> DayNumber(a) < DayNumber(b)
    ensures DateKey(a) == DateKey(b) <==> DayNumber(a) == DayNumber(b)
  {
    KeyOrderIsChronological(a, b);
    KeyInjective(a, b);
    DayNumberOrder(a, b);
  }
}
