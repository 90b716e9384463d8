/**
 The part of java.time.LocalDate the loan calculator relies on: the proleptic
 Gregorian calendar, month arithmetic that clamps the day of month, the epoch
 day count, and `Period` between two dates.
 */
module Calendar {

  /** A year-month-day triple; only valid triples are used (see `Date`). */
  datatype LocalDate = LocalDate(year: int, month: int, day: int)

  /** The Gregorian leap-year rule (`IsoChronology.isLeapYear`). */
  predicate IsLeap(year: int) {
    year % 4 == 0 && (year % 100 != 0 || year % 400 == 0)
  }

  /** `isLeapYear() ? 366 : 365`; `YearOfMonths` and `YearOfEpochDays` tie it to
      the month lengths and to the epoch day count. */
  function YearLength(year: int): int {
    if IsLeap(year) then 366 else 365
  }

  /** `LocalDate.lengthOfMonth`. */
  function LengthOfMonth(year: int, month: int): (r: int)
    ensures 28 <= r <= 31
    ensures r == 29 <==> month == 2 && IsLeap(year)
  {
    if month == 2 then (if IsLeap(year) then 29 else 28)
    else if month == 4 || month == 6 || month == 9 || month == 11 then 30
    else 31
  }

  predicate IsValid(d: LocalDate) {
    1 <= d.month <= 12 && 1 <= d.day <= LengthOfMonth(d.year, d.month)
  }

  /** The dates a LocalDate can hold. */
  type Date = d: LocalDate | IsValid(d) witness LocalDate(1970, 1, 1)

  function Min(a: int, b: int): int {
    if a <= b then a else b
  }

  /** Months counted from year 0, January: `LocalDate.getProlepticMonth`. */
  function ProlepticMonth(d: LocalDate): int {
    d.year * 12 + d.month - 1
  }

  /** Chronological order, `LocalDate.compareTo(...) <= 0`. */
  predicate NotAfter(a: LocalDate, b: LocalDate) {
    a.year < b.year || (a.year == b.year && (a.month < b.month || (a.month == b.month && a.day <= b.day)))
  }

  /** The date of the given year and month with the day clamped to the month's length. */
  function ResolvePreviousValid(year: int, month: int, day: int): (r: Date)
    requires 1 <= month <= 12 && 1 <= day
    ensures r.year == year && r.month == month
    ensures r.day == Min(day, LengthOfMonth(year, month))
  {
    LocalDate(year, month, Min(day, LengthOfMonth(year, month)))
  }

  /** `LocalDate.plusMonths`: shift the month and clamp the day of month. */
  function PlusMonths(d: Date, n: int): (r: Date)
    ensures ProlepticMonth(r) == ProlepticMonth(d) + n
    ensures r.day == Min(d.day, LengthOfMonth(r.year, r.month))
  {
    if n == 0 then d
    else
      var target := ProlepticMonth(d) + n;
      ResolvePreviousValid(target / 12, target % 12 + 1, d.day)
  }

  /** `LocalDate.minusMonths`. */
  function MinusMonths(d: Date, n: int): (r: Date)
    ensures ProlepticMonth(r) == ProlepticMonth(d) - n
    ensures r.day == Min(d.day, LengthOfMonth(r.year, r.month))
  {
    PlusMonths(d, -n)
  }

  /** `LocalDate.minusYears`: the same month `n` years earlier, day clamped. */
  function MinusYears(d: Date, n: int): (r: Date)
    ensures r.year == d.year - n && r.month == d.month
    ensures r.day == Min(d.day, LengthOfMonth(r.year, r.month))
  {
    if n == 0 then d else ResolvePreviousValid(d.year - n, d.month, d.day)
  }

  /** `LocalDate.withDayOfMonth(1)`. */
  function FirstOfMonth(d: Date): (r: Date)
    ensures r.year == d.year && r.month == d.month && r.day == 1
  {
    LocalDate(d.year, d.month, 1)
  }

  /** Leap days in the years before `year`, counted from year 0 (the year part
      of `LocalDate.toEpochDay`, including its separate branch for negative years,
      where Java's truncating division is applied to `-year`). */
  function LeapDaysBefore(year: int): int {
    if year >= 0 then (year + 3) / 4 - (year + 99) / 100 + (year + 399) / 400
    else -((-year) / 4 - (-year) / 100 + (-year) / 400)
  }

  /** Days from 0000-01-01 to 1970-01-01. */
  const DaysYearZeroTo1970: int := 719528

  /** `LocalDate.toEpochDay`: days since 1970-01-01. */
  function EpochDay(d: LocalDate): int {
    365 * d.year + LeapDaysBefore(d.year) + MonthStart(d.year, d.month) + d.day - 1 - DaysYearZeroTo1970
  }

  /** Euclidean division by one of the calendar's divisors is determined by any
      decomposition `x == k * q + r` with `0 <= r < k`. */
  lemma DivModUnique(x: int, k: int, q: int, r: int)
    requires k == 4 || k == 100 || k == 400
    requires x == k * q + r && 0 <= r < k
    ensures x / k == q && x % k == r
  {
    if k == 4 {
      assert x == 4 * q + r;
    } else if k == 100 {
      assert x == 100 * q + r;
    } else {
      assert x == 400 * q + r;
    }
  }

  /** `a / k` steps up by one exactly when `a` is a multiple of `k`. */
  lemma DivStep(a: int, k: int)
    requires k == 4 || k == 100 || k == 400
    ensures a / k - (a - 1) / k == (if a % k == 0 then 1 else 0)
  {
    var q, r := a / k, a % k;
    DivModUnique(a, k, q, r);
    if r == 0 {
      DivModUnique(a - 1, k, q - 1, k - 1);
    } else {
      DivModUnique(a - 1, k, q, r - 1);
    }
  }

  /** `-a` is a multiple of `k` exactly when `a` is. */
  lemma NegMultiple(a: int, k: int)
    requires k == 4 || k == 100 || k == 400
    ensures ((-a) % k == 0) == (a % k == 0)
  {
    var q, r := a / k, a % k;
    DivModUnique(a, k, q, r);
    if r == 0 {
      DivModUnique(-a, k, -q, 0);
    } else {
      DivModUnique(-a, k, -q - 1, k - r);
    }
  }

  /** Multiples of 400 are multiples of 100, and those are multiples of 4. */
  lemma MultipleChain(y: int)
    ensures y % 400 == 0 ==> y % 100 == 0
    ensures y % 100 == 0 ==> y % 4 == 0
  {
    var q400, q100 := y / 400, y / 100;
    DivModUnique(y, 400, q400, y % 400);
    DivModUnique(y, 100, q100, y % 100);
    if y % 400 == 0 {
      DivModUnique(y, 100, 4 * q400, 0);
    }
    if y % 100 == 0 {
      DivModUnique(y, 4, 25 * q100, 0);
    }
  }

  /** Adding `k` to `a` keeps its remainder modulo `k`. */
  lemma ShiftedRemainder(a: int, k: int)
    requires k == 4 || k == 100 || k == 400
    ensures (a + k) % k == a % k
  {
    DivModUnique(a, k, a / k, a % k);
    DivModUnique(a + k, k, a / k + 1, a % k);
  }

  lemma LeapDaysStepNonNegative(year: int)
    requires year >= 0
    ensures LeapDaysBefore(year + 1) - LeapDaysBefore(year) == (if IsLeap(year) then 1 else 0)
  {
    DivStep(year + 4, 4);
    DivStep(year + 100, 100);
    DivStep(year + 400, 400);
    ShiftedRemainder(year, 4);
    ShiftedRemainder(year, 100);
    ShiftedRemainder(year, 400);
    MultipleChain(year);
    var s4 := (year + 4) / 4 - (year + 3) / 4;
    var s100 := (year + 100) / 100 - (year + 99) / 100;
    var s400 := (year + 400) / 400 - (year + 399) / 400;
    assert LeapDaysBefore(year + 1) - LeapDaysBefore(year) == s4 - s100 + s400;
  }

  lemma LeapDaysStepNegative(year: int)
    requires year < -1
    ensures LeapDaysBefore(year + 1) - LeapDaysBefore(year) == (if IsLeap(year) then 1 else 0)
  {
    var a := -year;
    DivStep(a, 4);
    DivStep(a, 100);
    DivStep(a, 400);
    NegMultiple(year, 4);
    NegMultiple(year, 100);
    NegMultiple(year, 400);
    MultipleChain(year);
    var s4 := a / 4 - (a - 1) / 4;
    var s100 := a / 100 - (a - 1) / 100;
    var s400 := a / 400 - (a - 1) / 400;
    assert -(year + 1) == a - 1;
    assert LeapDaysBefore(year + 1) - LeapDaysBefore(year) == s4 - s100 + s400;
  }

  /** Each year contributes one leap day exactly when it is a leap year. */
  lemma LeapDaysStep(year: int)
    ensures LeapDaysBefore(year + 1) - LeapDaysBefore(year) == (if IsLeap(year) then 1 else 0)
  {
    if year >= 0 {
      LeapDaysStepNonNegative(year);
    } else if year < -1 {
      LeapDaysStepNegative(year);
    }
  }

  /** Two dates in the same month are as many days apart as their days of month. */
  lemma EpochDaySameMonth(a: Date, b: Date)
    requires a.year == b.year && a.month == b.month
    ensures EpochDay(b) - EpochDay(a) == b.day - a.day
  {
  }

  lemma SameProlepticMonth(a: Date, b: Date)
    requires ProlepticMonth(a) == ProlepticMonth(b)
    ensures a.year == b.year && a.month == b.month
  {
  }

  /** From a date to a date in the following month: the rest of the first month plus the day of the second. */
  lemma EpochDayNextMonth(a: Date, b: Date)
    requires ProlepticMonth(b) == ProlepticMonth(a) + 1
    ensures EpochDay(b) - EpochDay(a) == LengthOfMonth(a.year, a.month) - a.day + b.day
  {
    if a.month == 12 {
      assert b.year == a.year + 1 && b.month == 1;
      LeapDaysStep(a.year);
    } else {
      assert b.year == a.year && b.month == a.month + 1;
      MonthStartStep(a.year, a.month);
    }
  }

  /** The month term of `EpochDay`, as `toEpochDay` computes it: the days of the
      year before the month starts, from `(367 * month - 362) / 12` less the days
      February falls short of 30. */
  function MonthStart(year: int, month: int): int {
    var base := (367 * month - 362) / 12;
    if month > 2 then (if IsLeap(year) then base - 1 else base - 2) else base
  }

  /** Consecutive months of one year start as many days apart as the first one is long. */
  lemma MonthStartStep(year: int, month: int)
    requires 1 <= month <= 12
    ensures MonthStart(year, month + 1) - MonthStart(year, month) == LengthOfMonth(year, month)
  {
    match month
    case 1 => case 2 => case 3 => case 4 => case 5 => case 6 =>
    case 7 => case 8 => case 9 => case 10 => case 11 => case 12 =>
  }

  /** The days of the months of `year` before `month`, added up one month at a time. */
  function MonthLengthsBefore(year: int, month: int): int
    requires 1 <= month <= 13
    decreases month
  {
    if month == 1 then 0 else MonthLengthsBefore(year, month - 1) + LengthOfMonth(year, month - 1)
  }

  /** The closed form of `toEpochDay` for the start of a month is the sum of the
      lengths of the months before it. */
  lemma {:induction false} MonthStartIsMonthLengths(year: int, month: int)
    requires 1 <= month <= 13
    ensures MonthStart(year, month) == MonthLengthsBefore(year, month)
    decreases month
  {
    if month > 1 {
      MonthStartIsMonthLengths(year, month - 1);
      MonthStartStep(year, month - 1);
    }
  }

  /** The twelve month lengths of a year add up to its length. */
  lemma YearOfMonths(year: int)
    ensures MonthLengthsBefore(year, 13) == YearLength(year)
  {
    MonthStartIsMonthLengths(year, 13);
  }

  /** The epoch day count advances by the year's length from one New Year's Day to the next. */
  lemma YearOfEpochDays(year: int)
    ensures EpochDay(LocalDate(year + 1, 1, 1)) - EpochDay(LocalDate(year, 1, 1)) == YearLength(year)
  {
    LeapDaysStep(year);
  }

  /** A zero remainder does not depend on the sign of the dividend. */
  lemma RemainderZeroOfNegation(a: int, k: int)
    requires k == 100 || k == 400
    ensures (-a) % k == 0 <==> a % k == 0
  {
    if a % k == 0 {
      DivModUnique(-a, k, -(a / k), 0);
    }
    if (-a) % k == 0 {
      DivModUnique(a, k, -((-a) / k), 0);
    }
  }

  /** `IsLeap` agrees with Java's form of the rule for every year, negative ones
      included: `(year & 3) == 0`, which is the non-negative remainder by 4, and the
      truncating `%` by 100 and 400. */
  lemma IsLeapAsJava(year: int)
    ensures IsLeap(year) <==>
      year % 4 == 0 && (TruncRem(year, 100) != 0 || TruncRem(year, 400) == 0)
  {
    RemainderZeroOfNegation(year, 100);
    RemainderZeroOfNegation(year, 400);
  }

  /** `java.time.Period`: a signed amount of years, months and days. */
  datatype Period = Period(years: int, months: int, days: int)

  /** Java's `/` on int: the quotient truncated toward zero. */
  function TruncDiv(a: int, b: int): int
    requires b > 0
  {
    if a >= 0 then a / b else -((-a) / b)
  }

  /** Java's `%` on int: the remainder takes the sign of the dividend. */
  function TruncRem(a: int, b: int): int
    requires b > 0
  {
    if a >= 0 then a % b else -((-a) % b)
  }

  /** `start.until(end)`: whole months first (backing off one month when the day
      of month has not been reached), the remaining days last. Years and months
      share their sign, and the months stay below twelve in size. */
  function Until(start: Date, end: Date): (p: Period)
    ensures -12 < p.months < 12
    ensures p.years > 0 ==> p.months >= 0
    ensures p.years < 0 ==> p.months <= 0
    ensures start == end ==> p == Period(0, 0, 0)
  {
    var totalMonths := ProlepticMonth(end) - ProlepticMonth(start);
    var days := end.day - start.day;
    if totalMonths > 0 && days < 0 then
      var calcDate := PlusMonths(start, totalMonths - 1);
      Period(TruncDiv(totalMonths - 1, 12), TruncRem(totalMonths - 1, 12), EpochDay(end) - EpochDay(calcDate))
    else if totalMonths < 0 && days > 0 then
      Period(TruncDiv(totalMonths + 1, 12), TruncRem(totalMonths + 1, 12), days - LengthOfMonth(end.year, end.month))
    else
      Period(TruncDiv(totalMonths, 12), TruncRem(totalMonths, 12), days)
  }

  /** Whole months of a period. */
  function TotalMonths(p: Period): int {
    p.years * 12 + p.months
  }

  /** A period between ordered dates is non-negative and adds back: moving `start`
      by the period's months and then by its days reaches `end`. */
  lemma PeriodAddsBack(start: Date, end: Date)
    requires NotAfter(start, end)
    ensures var p := Until(start, end);
      && TotalMonths(p) >= 0 && 0 <= p.months < 12 && p.days >= 0
      && EpochDay(PlusMonths(start, TotalMonths(p))) + p.days == EpochDay(end)
  {
    var totalMonths := ProlepticMonth(end) - ProlepticMonth(start);
    assert totalMonths >= 0;
    if totalMonths > 0 && end.day < start.day {
      PeriodAddsBackBorrowing(start, end);
    } else if totalMonths == 0 {
      PeriodAddsBackSameMonth(start, end);
    } else {
      PeriodAddsBackWholeMonths(start, end);
    }
  }

  /** The case where the day of `end` is before that of `start`: one month fewer, and
      the days counted from the date one month before `end`. */
  lemma PeriodAddsBackBorrowing(start: Date, end: Date)
    requires ProlepticMonth(end) > ProlepticMonth(start) && end.day < start.day
    ensures var p := Until(start, end);
      && TotalMonths(p) >= 0 && 0 <= p.months < 12 && p.days >= 0
      && EpochDay(PlusMonths(start, TotalMonths(p))) + p.days == EpochDay(end)
  {
    var totalMonths := ProlepticMonth(end) - ProlepticMonth(start);
    var calcDate := PlusMonths(start, totalMonths - 1);
    assert Until(start, end)
      == Period(TruncDiv(totalMonths - 1, 12), TruncRem(totalMonths - 1, 12), EpochDay(end) - EpochDay(calcDate));
    MonthsSplit(totalMonths - 1);
    EpochDayNextMonth(calcDate, end);
  }

  /** Dates in the same month: no months, the difference of the days. */
  lemma PeriodAddsBackSameMonth(start: Date, end: Date)
    requires ProlepticMonth(end) == ProlepticMonth(start) && start.day <= end.day
    ensures var p := Until(start, end);
      && TotalMonths(p) >= 0 && 0 <= p.months < 12 && p.days >= 0
      && EpochDay(PlusMonths(start, TotalMonths(p))) + p.days == EpochDay(end)
  {
    assert Until(start, end) == Period(0, 0, end.day - start.day);
    SameProlepticMonth(start, end);
    EpochDaySameMonth(start, end);
  }

  /** The day of `end` is not before that of `start`: whole months, then the days. */
  lemma PeriodAddsBackWholeMonths(start: Date, end: Date)
    requires ProlepticMonth(end) > ProlepticMonth(start) && start.day <= end.day
    ensures var p := Until(start, end);
      && TotalMonths(p) >= 0 && 0 <= p.months < 12 && p.days >= 0
      && EpochDay(PlusMonths(start, TotalMonths(p))) + p.days == EpochDay(end)
  {
    var totalMonths := ProlepticMonth(end) - ProlepticMonth(start);
    assert Until(start, end) == Period(TruncDiv(totalMonths, 12), TruncRem(totalMonths, 12), end.day - start.day);
    MonthsSplit(totalMonths);
    var moved := PlusMonths(start, totalMonths);
    SameProlepticMonth(moved, end);
    EpochDaySameMonth(moved, end);
  }

  /** A non-negative number of months splits into whole years and 0 to 11 months. */
  lemma MonthsSplit(n: int)
    requires n >= 0
    ensures TotalMonths(Period(TruncDiv(n, 12), TruncRem(n, 12), 0)) == n
    ensures 0 <= TruncRem(n, 12) < 12
  {
  }

  /** Age in whole years: `birthDate.until(today).getYears()`. It is never negative
      from the birth date on and never positive before it. */
  function Age(birth: Date, today: Date): (r: int)
    ensures NotAfter(birth, today) ==> r >= 0
    ensures !NotAfter(birth, today) ==> r <= 0
  {
    Until(birth, today).years
  }

  /** The anniversary `n` years after `birth`, not clamped (Feb 29 stays Feb 29). */
  function Anniversary(birth: Date, n: int): LocalDate {
    LocalDate(birth.year + n, birth.month, birth.day)
  }

  /** Someone is at least `n >= 1` whole years old exactly from their `n`-th birthday on;
      a person born on Feb 29 turns `n` on Mar 1 of a common year. */
  lemma AgeAtLeastIff(birth: Date, today: Date, n: int)
    requires n >= 1
    ensures Age(birth, today) >= n <==> NotAfter(Anniversary(birth, n), today)
  {
    var totalMonths := ProlepticMonth(today) - ProlepticMonth(birth);
    var days := today.day - birth.day;
    if NotAfter(birth, today) {
      assert totalMonths >= 0;
      var whole := if totalMonths > 0 && days < 0 then totalMonths - 1 else totalMonths;
      assert whole >= 0;
      assert Age(birth, today) == whole / 12;
      assert NotAfter(Anniversary(birth, n), today) <==> whole >= 12 * n;
    } else {
      assert totalMonths <= 0;
      assert Age(birth, today) <= 0;
    }
  }
}
