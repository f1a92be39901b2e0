/** The proleptic Gregorian calendar of java.time, as far as `getDaysSince`
    needs it: dates, their epoch-day numbers and the signed day count between
    two dates (`ChronoUnit.DAYS.between`). */
module Calendar {
  import opened Wrappers

  /** The year range of `LocalDate` (`Year.MIN_VALUE`, `Year.MAX_VALUE`). */
  const MinYear: int := -999_999_999
  const MaxYear: int := 999_999_999

  /** Days from 0000-01-01 to 1970-01-01 in the proleptic calendar. */
  const DaysFrom0000To1970: int := 719_528

  /** Year, one-based month and day of month, not necessarily an existing
      date (the fields `LocalDate.of` is given). */
  datatype Date = Date(year: int, month: int, day: int)

  const MinDate: Date := Date(MinYear, 1, 1)
  const MaxDate: Date := Date(MaxYear, 12, 31)

  predicate IsLeapYear(y: int) {
    y % 4 == 0 && (y % 100 != 0 || y % 400 == 0)
  }

  function LengthOfMonth(y: int, m: int): int {
    if m == 2 then (if IsLeapYear(y) then 29 else 28)
    else if m == 4 || m == 6 || m == 9 || m == 11 then 30
    else 31
  }

  function LengthOfYear(y: int): int {
    if IsLeapYear(y) then 366 else 365
  }

  /** The dates `LocalDate.of` accepts without throwing. */
  predicate ValidDate(d: Date) {
    MinYear <= d.year <= MaxYear &&
    1 <= d.month <= 12 &&
    1 <= d.day <= LengthOfMonth(d.year, d.month)
  }

  /** A `LocalDate`: a date java.time accepts, so always an existing one. */
  type LocalDate = d: Date | ValidDate(d) witness Date(1970, 1, 1)

  /** Lexicographic order on dates (`LocalDate.isBefore`). */
  predicate Before(a: Date, b: Date) {
    a.year < b.year ||
    (a.year == b.year && (a.month < b.month || (a.month == b.month && a.day < b.day)))
  }

  /** Java's `/` on `long`: the quotient rounded toward zero. */
  function TruncDiv(a: int, b: int): int
    requires b != 0
  {
    if (a >= 0) == (b > 0) then (if a >= 0 then a / b else (-a) / (-b))
    else -(if a >= 0 then a / (-b) else (-a) / b)
  }

  /** The leap-year term of `toEpochDay`: the number of leap years in [0, y)
      for y >= 0, and minus the number in [y, 0) otherwise. */
  function LeapYearsBefore(y: int): int {
    if y >= 0 then (y + 3) / 4 - (y + 99) / 100 + (y + 399) / 400
    else -(TruncDiv(y, -4) - TruncDiv(y, -100) + TruncDiv(y, -400))
  }

  /** The epoch day of January 1st of year `y`. */
  function YearStart(y: int): int {
    365 * y + LeapYearsBefore(y) - DaysFrom0000To1970
  }

  /** The days of year `y` before month `m`: `(367 * m - 362) / 12`, less one
      day after February, and one more in a common year. */
  function DaysBeforeMonth(y: int, m: int): int
    requires 1 <= m <= 12
  {
    (367 * m - 362) / 12 - (if m > 2 then (if IsLeapYear(y) then 1 else 2) else 0)
  }

  /** `LocalDate.toEpochDay`: the day number counted from 1970-01-01. Every
      date of year `y` falls between January 1st of `y` and of `y + 1`. */
  function EpochDay(d: Date): (n: int)
    requires ValidDate(d)
    ensures YearStart(d.year) <= n < YearStart(d.year) + LengthOfYear(d.year)
  {
    MonthWithinYear(d.year, d.month);
    YearStart(d.year) + DaysBeforeMonth(d.year, d.month) + d.day - 1
  }

  /** `getDaysSince` with the clock's date passed in as `today`:
      `ChronoUnit.DAYS.between(start, today)`, negative for a future start. */
  function DaysSince(start: Date, today: Date): (n: int)
    requires ValidDate(start) && ValidDate(today)
    ensures start == today ==> n == 0
  {
    EpochDay(today) - EpochDay(start)
  }

  /** The calendar successor of a date, written independently of `EpochDay`. */
  function NextDay(d: Date): (r: Date)
    requires ValidDate(d) && d != MaxDate
    ensures ValidDate(r) && Before(d, r)
  {
    if d.day < LengthOfMonth(d.year, d.month) then Date(d.year, d.month, d.day + 1)
    else if d.month < 12 then Date(d.year, d.month + 1, 1)
    else Date(d.year + 1, 1, 1)
  }

  /** The calendar predecessor of a date. */
  function PrevDay(d: Date): (r: Date)
    requires ValidDate(d) && d != MinDate
    ensures ValidDate(r) && Before(r, d)
    ensures r != MaxDate && NextDay(r) == d
  {
    if d.day > 1 then Date(d.year, d.month, d.day - 1)
    else if d.month > 1 then Date(d.year, d.month - 1, LengthOfMonth(d.year, d.month - 1))
    else Date(d.year - 1, 12, 31)
  }

  // ---------------------------------------------------------------------
  // The closed form agrees with the calendar.

  /** Facts about division by the divisors of the leap-year rule: raising a
      non-negative numerator by one raises the quotient exactly when it
      reaches a multiple; divisibility ignores shifts by the divisor and
      the sign. The three divisors get a lemma each: with the divisor a
      literal the solver reasons linearly, while one lemma over a divisor
      parameter is nonlinear and its proof depends on the solver's seed. */
  lemma DivisionBy4(a: int, y: int)
    ensures a >= 0 ==> (a + 1) / 4 - a / 4 == if (a + 1) % 4 == 0 then 1 else 0
    ensures (y + 4) % 4 == y % 4
    ensures (-y) % 4 == 0 <==> y % 4 == 0
  {
  }

  lemma DivisionBy100(a: int, y: int)
    ensures a >= 0 ==> (a + 1) / 100 - a / 100 == if (a + 1) % 100 == 0 then 1 else 0
    ensures (y + 100) % 100 == y % 100
    ensures (-y) % 100 == 0 <==> y % 100 == 0
  {
  }

  lemma DivisionBy400(a: int, y: int)
    ensures a >= 0 ==> (a + 1) / 400 - a / 400 == if (a + 1) % 400 == 0 then 1 else 0
    ensures (y + 400) % 400 == y % 400
    ensures (-y) % 400 == 0 <==> y % 400 == 0
  {
  }

  /** A multiple of 400 is one of 100, and a multiple of 100 one of 4. */
  lemma DivisibilityChain(y: int)
    ensures (y % 400 == 0 ==> y % 100 == 0) && (y % 100 == 0 ==> y % 4 == 0)
  {
  }

  /** The leap-year term steps by the three quotient steps. */
  lemma LeapYearsBySteps(y: int, d4: int, d100: int, d400: int)
    requires d4 == (if y % 4 == 0 then 1 else 0)
    requires d100 == (if y % 100 == 0 then 1 else 0)
    requires d400 == (if y % 400 == 0 then 1 else 0)
    ensures d4 - d100 + d400 == if IsLeapYear(y) then 1 else 0
  {
    DivisibilityChain(y);
  }

  lemma LeapYearsStepNonNegative(y: int)
    requires y >= 0
    ensures LeapYearsBefore(y + 1) == LeapYearsBefore(y) + (if IsLeapYear(y) then 1 else 0)
  {
    DivisionBy4(y + 3, y);
    DivisionBy100(y + 99, y);
    DivisionBy400(y + 399, y);
    var d4 := (y + 4) / 4 - (y + 3) / 4;
    var d100 := (y + 100) / 100 - (y + 99) / 100;
    var d400 := (y + 400) / 400 - (y + 399) / 400;
    LeapYearsBySteps(y, d4, d100, d400);
    assert LeapYearsBefore(y + 1) - LeapYearsBefore(y) == d4 - d100 + d400;
  }

  lemma LeapYearsStepNegative(y: int)
    requires y < -1
    ensures LeapYearsBefore(y + 1) == LeapYearsBefore(y) + (if IsLeapYear(y) then 1 else 0)
  {
    var a := -y - 1;
    DivisionBy4(a, y);
    DivisionBy100(a, y);
    DivisionBy400(a, y);
    var d4 := (a + 1) / 4 - a / 4;
    var d100 := (a + 1) / 100 - a / 100;
    var d400 := (a + 1) / 400 - a / 400;
    LeapYearsBySteps(y, d4, d100, d400);
    assert TruncDiv(y, -4) == (a + 1) / 4 && TruncDiv(y + 1, -4) == a / 4;
    assert TruncDiv(y, -100) == (a + 1) / 100 && TruncDiv(y + 1, -100) == a / 100;
    assert TruncDiv(y, -400) == (a + 1) / 400 && TruncDiv(y + 1, -400) == a / 400;
  }

  /** The leap-year term grows by one across exactly the leap years. */
  lemma {:induction false} LeapYearsStep(y: int)
    ensures LeapYearsBefore(y + 1) == LeapYearsBefore(y) + (if IsLeapYear(y) then 1 else 0)
  {
    if y >= 0 {
      LeapYearsStepNonNegative(y);
    } else if y < -1 {
      LeapYearsStepNegative(y);
    }
  }

  lemma {:induction false} YearStartStep(y: int)
    ensures YearStart(y + 1) == YearStart(y) + LengthOfYear(y)
  {
    LeapYearsStep(y);
  }

  lemma DaysBeforeMonthStep(y: int, m: int)
    requires 1 <= m < 12
    ensures DaysBeforeMonth(y, m + 1) == DaysBeforeMonth(y, m) + LengthOfMonth(y, m)
  {
    assert m in {1, 2, 3, 4, 5, 6, 7, 8, 9, 10, 11};
  }

  lemma DaysBeforeJanuaryAndDecember(y: int)
    ensures DaysBeforeMonth(y, 1) == 0
    ensures DaysBeforeMonth(y, 12) + LengthOfMonth(y, 12) == LengthOfYear(y)
  {
  }

  /** Moving to the next calendar day adds exactly one to the epoch day. */
  lemma {:induction false} EpochDayNext(d: Date)
    requires ValidDate(d) && d != MaxDate
    ensures EpochDay(NextDay(d)) == EpochDay(d) + 1
  {
    if d.day < LengthOfMonth(d.year, d.month) {
    } else if d.month < 12 {
      DaysBeforeMonthStep(d.year, d.month);
    } else {
      YearStartStep(d.year);
      DaysBeforeJanuaryAndDecember(d.year);
      DaysBeforeJanuaryAndDecember(d.year + 1);
    }
  }

  lemma {:induction false} EpochDayPrev(d: Date)
    requires ValidDate(d) && d != MinDate
    ensures EpochDay(PrevDay(d)) == EpochDay(d) - 1
  {
    EpochDayNext(PrevDay(d));
  }

  /** 1970-01-01 is day zero. */
  lemma EpochOrigin()
    ensures EpochDay(Date(1970, 1, 1)) == 0
  {
  }

  // ---------------------------------------------------------------------
  // Order: the epoch day numbers dates in calendar order.

  lemma {:induction false} DaysBeforeMonthOrder(y: int, m1: int, m2: int)
    requires 1 <= m1 < m2 <= 12
    ensures DaysBeforeMonth(y, m1) + LengthOfMonth(y, m1) <= DaysBeforeMonth(y, m2)
    decreases m2 - m1
  {
    DaysBeforeMonthStep(y, m1);
    if m1 + 1 < m2 {
      DaysBeforeMonthOrder(y, m1 + 1, m2);
    }
  }

  /** Each month lies inside its year. */
  lemma MonthWithinYear(y: int, m: int)
    requires 1 <= m <= 12
    ensures 0 <= DaysBeforeMonth(y, m)
    ensures DaysBeforeMonth(y, m) + LengthOfMonth(y, m) <= LengthOfYear(y)
  {
    DaysBeforeJanuaryAndDecember(y);
    if m > 1 {
      DaysBeforeMonthOrder(y, 1, m);
    }
    if m < 12 {
      DaysBeforeMonthOrder(y, m, 12);
    }
  }

  lemma {:induction false} YearStartOrder(y1: int, y2: int)
    requires y1 < y2
    ensures YearStart(y1) + LengthOfYear(y1) <= YearStart(y2)
    decreases y2 - y1
  {
    YearStartStep(y1);
    if y1 + 1 < y2 {
      YearStartOrder(y1 + 1, y2);
    }
  }

  /** A date before another has a smaller epoch day. */
  lemma EpochDayMonotone(a: Date, b: Date)
    requires ValidDate(a) && ValidDate(b) && Before(a, b)
    ensures EpochDay(a) < EpochDay(b)
  {
    if a.year < b.year {
      YearStartOrder(a.year, b.year);
    } else if a.month < b.month {
      DaysBeforeMonthOrder(a.year, a.month, b.month);
    }
  }

  /** Distinct dates have distinct epoch days. */
  lemma EpochDayInjective(a: Date, b: Date)
    requires ValidDate(a) && ValidDate(b)
    ensures EpochDay(a) == EpochDay(b) ==> a == b
  {
    if Before(a, b) {
      EpochDayMonotone(a, b);
    } else if Before(b, a) {
      EpochDayMonotone(b, a);
    }
  }

  /** `getDaysSince` is zero exactly on the start date, positive exactly for a
      start in the past and negative exactly for a start in the future. */
  lemma DaysSinceSign(start: Date, today: Date)
    requires ValidDate(start) && ValidDate(today)
    ensures DaysSince(start, today) == 0 <==> start == today
    ensures DaysSince(start, today) > 0 <==> Before(start, today)
    ensures DaysSince(start, today) < 0 <==> Before(today, start)
  {
    if Before(start, today) {
      EpochDayMonotone(start, today);
    } else if Before(today, start) {
      EpochDayMonotone(today, start);
    }
  }

  /** Swapping the two dates negates the count. */
  lemma DaysSinceAntisymmetric(start: Date, today: Date)
    requires ValidDate(start) && ValidDate(today)
    ensures DaysSince(start, today) == -DaysSince(today, start)
  {
  }

  /** The epoch days of `LocalDate.MIN` and `LocalDate.MAX` bound every other;
      hence `getDaysSince` always fits the `Long` it returns. */
  lemma DaysSinceFitsLong(start: Date, today: Date)
    requires ValidDate(start) && ValidDate(today)
    ensures EpochDay(MinDate) == -365_243_219_162 && EpochDay(MaxDate) == 365_241_780_471
    ensures EpochDay(MinDate) <= EpochDay(start) <= EpochDay(MaxDate)
    ensures -0x8000_0000_0000_0000 <= DaysSince(start, today) < 0x8000_0000_0000_0000
  {
    EndpointEpochDays();
    Bounded(start);
    Bounded(today);
  }

  lemma EndpointEpochDays()
    ensures EpochDay(MinDate) == -365_243_219_162 && EpochDay(MaxDate) == 365_241_780_471
  {
    assert LeapYearsBefore(MinYear) == -242_499_999;
    assert LeapYearsBefore(MaxYear) == 242_500_000;
  }

  lemma Bounded(d: Date)
    requires ValidDate(d)
    ensures EpochDay(MinDate) <= EpochDay(d) <= EpochDay(MaxDate)
  {
    if Before(MinDate, d) {
      EpochDayMonotone(MinDate, d);
    }
    if Before(d, MaxDate) {
      EpochDayMonotone(d, MaxDate);
    }
  }

  // ---------------------------------------------------------------------
  // Shifting a date by whole days (`LocalDate.minusDays` / `plusDays`).

  /** `d.minusDays(n)`: `None` where java.time throws for leaving the
      supported range. */
  function MinusDays(d: Date, n: nat): (r: Option<Date>)
    requires ValidDate(d)
    ensures r.Some? ==> ValidDate(r.value) && EpochDay(r.value) == EpochDay(d) - n
    ensures r.None? ==> EpochDay(d) - n < EpochDay(MinDate)
    decreases n
  {
    if n == 0 then Some(d)
    else if d == MinDate then None
    else
      EpochDayPrev(d);
      MinusDays(PrevDay(d), n - 1)
  }

  /** `d.plusDays(n)`: `None` where java.time throws for leaving the
      supported range. */
  function PlusDays(d: Date, n: nat): (r: Option<Date>)
    requires ValidDate(d)
    ensures r.Some? ==> ValidDate(r.value) && EpochDay(r.value) == EpochDay(d) + n
    ensures r.None? ==> EpochDay(d) + n > EpochDay(MaxDate)
    decreases n
  {
    if n == 0 then Some(d)
    else if d == MaxDate then None
    else
      EpochDayNext(d);
      PlusDays(NextDay(d), n - 1)
  }

  /** Moving the start date `n` days earlier raises `getDaysSince` by `n`. */
  lemma DaysSinceEarlierStart(start: Date, earlier: Date, today: Date, n: nat)
    requires ValidDate(start) && ValidDate(today)
    requires MinusDays(start, n) == Some(earlier)
    ensures DaysSince(earlier, today) == DaysSince(start, today) + n
  {
  }

  /** Moving the start date `n` days later lowers `getDaysSince` by `n`. */
  lemma DaysSinceLaterStart(start: Date, later: Date, today: Date, n: nat)
    requires ValidDate(start) && ValidDate(today)
    requires PlusDays(start, n) == Some(later)
    ensures DaysSince(later, today) == DaysSince(start, today) - n
  {
  }
}
