/**
 The repayment plan of a credit: one entry per month, each dated one calendar
 month after the previous one, with the interest of the month computed from the
 outstanding debt and a day-count coefficient, and a final payment that clears
 whatever debt is left.
 */
module Schedule {
  import opened Decimal
  import opened Calendar
  import opened Domain

  /** Days from the previous payment to the end of December, as the service counts
      them for a January payment: the days part of the period from one month before
      the payment to the first of January, minus one. */
  function DaysUntilNextMonth(date: Date): int {
    Until(MinusMonths(date, 1), FirstOfMonth(date)).days - 1
  }

  /** Days from the first of the month to the payment, counting both ends. */
  function DaysInNowMonth(date: Date): int {
    Until(FirstOfMonth(date), date).days + 1
  }

  /** The fraction of a year one month of interest covers. A January payment other
      than the first is split at the new year: the December part is measured against
      the length of the previous year, the January part against the current one.
      Every other payment uses the length of the previous calendar month over the
      length of the current year. So a coefficient is about one twelfth of a year:
      between 28/366 and 31/365 outside the split, between 31/366 and 31/365 in it,
      except that a January 1 payment in the split gets almost nothing, the December
      part being counted as -1 days. */
  function DailyCoefficient(date: Date, index: int): (r: real)
    ensures !(date.month == 1 && index > 0) ==> 0.0765 < r < 0.0850
    ensures date.month == 1 && index > 0 && date.day > 1 ==> 0.0846 < r < 0.0850
    ensures date.month == 1 && index > 0 && date.day == 1 ==> -0.00001 < r < 0.00001
  {
    if date.month == 1 && index > 0 then
      var lengthBeforeYear := YearLength(MinusYears(date, 1).year);
      var lengthNowYear := YearLength(date.year);
      SplitCoefficient(date);
      RoundHalfEven(DaysUntilNextMonth(date) as real / lengthBeforeYear as real, 20)
        + RoundHalfEven(DaysInNowMonth(date) as real / lengthNowYear as real, 20)
    else
      var before := MinusMonths(date, 1);
      MonthCoefficient(date);
      RoundHalfEven(LengthOfMonth(before.year, before.month) as real / YearLength(date.year) as real, 20)
  }

  /** The bounds of the coefficient in the January split. */
  lemma SplitCoefficient(date: Date)
    requires date.month == 1
    ensures var r := RoundHalfEven(DaysUntilNextMonth(date) as real / YearLength(MinusYears(date, 1).year) as real, 20)
                   + RoundHalfEven(DaysInNowMonth(date) as real / YearLength(date.year) as real, 20);
      && (date.day > 1 ==> 0.0846 < r < 0.0850)
      && (date.day == 1 ==> -0.00001 < r < 0.00001)
  {
    var december := DaysUntilNextMonth(date) as real / YearLength(MinusYears(date, 1).year) as real;
    var january := DaysInNowMonth(date) as real / YearLength(date.year) as real;
    JanuaryDays(date);
    SplitShares(date.day, YearLength(MinusYears(date, 1).year), YearLength(date.year), december, january);
    RoundHalfEvenNear20(december);
    RoundHalfEvenNear20(january);
    SplitRounded(december, january, RoundHalfEven(december, 20), RoundHalfEven(january, 20), date.day);
  }

  /** The rounded shares of the split stay within the bounds of the exact ones. */
  lemma SplitRounded(december: real, january: real, roundedDecember: real, roundedJanuary: real, day: int)
    requires Abs(roundedDecember - december) <= 0.000000000000000000005
    requires Abs(roundedJanuary - january) <= 0.000000000000000000005
    requires day > 1 ==> 0.084699 < december + january < 0.084932
    requires day == 1 ==> -0.0000075 < december + january < 0.0000075
    ensures day > 1 ==> 0.0846 < roundedDecember + roundedJanuary < 0.0850
    ensures day == 1 ==> -0.00001 < roundedDecember + roundedJanuary < 0.00001
  {
  }

  /** The bounds of the coefficient outside the January split. */
  lemma MonthCoefficient(date: Date)
    ensures var before := MinusMonths(date, 1);
      var r := RoundHalfEven(LengthOfMonth(before.year, before.month) as real / YearLength(date.year) as real, 20);
      0.0765 < r < 0.0850
  {
    var before := MinusMonths(date, 1);
    var share := LengthOfMonth(before.year, before.month) as real / YearLength(date.year) as real;
    MonthShare(LengthOfMonth(before.year, before.month), YearLength(date.year), share);
    RoundHalfEvenNear20(share);
  }

  /** A month's share of a year lies between 28/366 and 31/365. */
  lemma MonthShare(length: int, yearLength: int, share: real)
    requires 28 <= length <= 31 && (yearLength == 365 || yearLength == 366)
    requires share == length as real / yearLength as real
    ensures 0.076502 < share < 0.084932
  {
    if yearLength == 365 {
      assert share == length as real / 365.0;
    } else {
      assert share == length as real / 366.0;
    }
  }

  /** The two shares of the January split: `31 - day` days of December and `day` days
      of January add up to between 31/366 and 31/365 of a year; on January 1, -1 days
      and 1 day nearly cancel. */
  lemma SplitShares(day: int, yearBefore: int, yearNow: int, december: real, january: real)
    requires 1 <= day <= 31
    requires yearBefore == 365 || yearBefore == 366
    requires yearNow == 365 || yearNow == 366
    requires december == (if day == 1 then -1 else 31 - day) as real / yearBefore as real
    requires january == day as real / yearNow as real
    ensures day > 1 ==> 0.084699 < december + january < 0.084932
    ensures day == 1 ==> -0.0000075 < december + january < 0.0000075
  {
    var d := if day == 1 then -1 else 31 - day;
    if yearBefore == 365 {
      assert december == d as real / 365.0;
    } else {
      assert december == d as real / 366.0;
    }
    if yearNow == 365 {
      assert january == day as real / 365.0;
    } else {
      assert january == day as real / 366.0;
    }
  }

  /** The two January day counts, in terms of the calendar: the January part is the
      day of month, and the December part is the number of days from the previous
      payment to the new year (exclusive) except on the first of January, where the
      period from December 1 is one whole month with no days and the count is -1.
      So the two parts add up to the days since the previous payment date, or to
      zero for a payment on January 1. */
  lemma JanuaryDayCounts(date: Date)
    requires date.month == 1
    ensures DaysInNowMonth(date) == date.day
    ensures DaysUntilNextMonth(date) == (if date.day == 1 then -1 else 31 - date.day)
    ensures date.day > 1 ==> DaysUntilNextMonth(date) == EpochDay(FirstOfMonth(date)) - EpochDay(MinusMonths(date, 1)) - 1
    ensures DaysUntilNextMonth(date) + DaysInNowMonth(date)
      == (if date.day == 1 then 0 else EpochDay(date) - EpochDay(MinusMonths(date, 1)))
  {
    JanuaryDays(date);
    var before := MinusMonths(date, 1);
    EpochDayNextMonth(before, FirstOfMonth(date));
    EpochDayNextMonth(before, date);
  }

  /** The two January day counts alone: the day of month, and `31 - day` for the
      December part, or -1 on January 1. */
  lemma JanuaryDays(date: Date)
    requires date.month == 1
    ensures DaysInNowMonth(date) == date.day
    ensures DaysUntilNextMonth(date) == (if date.day == 1 then -1 else 31 - date.day)
  {
    var before := MinusMonths(date, 1);
    assert before.year == date.year - 1 && before.month == 12 && before.day == date.day;
    EpochDayNextMonth(before, FirstOfMonth(date));
  }

  /** Outside the January split, the month length used is the number of days since
      the same day of the previous month, as long as that day exists there. */
  lemma MonthLengthIsElapsedDays(date: Date)
    requires date.day <= LengthOfMonth(MinusMonths(date, 1).year, MinusMonths(date, 1).month)
    ensures var before := MinusMonths(date, 1);
      LengthOfMonth(before.year, before.month) == EpochDay(date) - EpochDay(before)
  {
    EpochDayNextMonth(MinusMonths(date, 1), date);
  }

  /** The coefficient in calendar terms. Outside the January split it is the number of
      days since the same day of the previous month over the length of the year; in
      the split, the days left in December over the previous year's length plus the
      day of month over the current year's length (with the -1 of a January 1 payment). */
  lemma DailyCoefficientDays(date: Date, index: int)
    ensures date.month == 1 && index > 0 ==>
      DailyCoefficient(date, index)
      == RoundHalfEven((if date.day == 1 then -1 else 31 - date.day) as real / YearLength(date.year - 1) as real, 20)
       + RoundHalfEven(date.day as real / YearLength(date.year) as real, 20)
    ensures !(date.month == 1 && index > 0) && date.day <= LengthOfMonth(MinusMonths(date, 1).year, MinusMonths(date, 1).month) ==>
      DailyCoefficient(date, index)
      == RoundHalfEven((EpochDay(date) - EpochDay(MinusMonths(date, 1))) as real / YearLength(date.year) as real, 20)
  {
    if date.month == 1 && index > 0 {
      JanuaryDayCounts(date);
    } else if date.day <= LengthOfMonth(MinusMonths(date, 1).year, MinusMonths(date, 1).month) {
      MonthLengthIsElapsedDays(date);
    }
  }

  /** The interest of a month: debt times the yearly rate as a fraction (rounded to
      20 digits) times the day-count coefficient, rounded to cents. */
  function InterestPayment(debt: real, rate: real, coefficient: real): (r: real)
    ensures HasScale(r, 2)
    ensures Abs(r - debt * RoundHalfEven(rate / 100.0, 20) * coefficient) * 100.0 <= 0.5
  {
    var exact := debt * RoundHalfEven(rate / 100.0, 20) * coefficient;
    Pow10Values();
    RoundHalfEven(exact, 2)
  }

  /** The principal repaid by a run of entries. */
  function SumDebt(s: seq<PaymentScheduleElement>): real {
    if |s| == 0 then 0.0 else s[0].debtPayment + SumDebt(s[1..])
  }

  /** The debt outstanding before entry `j`: the initial debt, or what the entry
      before it left. */
  function DebtBefore(s: seq<PaymentScheduleElement>, debt: real, j: int): real
    requires 0 <= j <= |s|
  {
    if j == 0 then debt else s[j - 1].remainingDebt
  }

  /** The date `n` payments after `date`: `plusMonths(1)` applied `n` times, so a
      clamped day of month stays clamped (this is not `plusMonths(n)`). */
  function MonthsAfter(date: Date, n: nat): Date {
    if n == 0 then date else PlusMonths(MonthsAfter(date, n - 1), 1)
  }

  lemma {:induction false} MonthsAfterShift(date: Date, n: nat)
    ensures MonthsAfter(PlusMonths(date, 1), n) == MonthsAfter(date, n + 1)
  {
    if n > 0 {
      MonthsAfterShift(date, n - 1);
    }
  }

  /** Payment dates move by whole calendar months and their day of month can only
      drift down: a payment on the 31st is followed by one on the 28th in February,
      and stays on the 28th after that. */
  lemma {:induction false} MonthsAfterDrift(date: Date, n: nat)
    ensures ProlepticMonth(MonthsAfter(date, n)) == ProlepticMonth(date) + n
    ensures MonthsAfter(date, n).day <= date.day
  {
    if n > 0 {
      MonthsAfterDrift(date, n - 1);
    }
  }

  /** How the interest of a month is computed from the debt outstanding, the
      payment date and the payment's index. */
  type InterestRule = (real, Date, int) -> real

  /** The rule of the service: `InterestPayment` with the day-count coefficient of the date. */
  function MonthInterest(rate: real): InterestRule {
    (debt: real, date: Date, index: int) => InterestPayment(debt, rate, DailyCoefficient(date, index))
  }

  /** Entry `i + 1` of a plan of `term` entries, due on `date` with `debt` outstanding
      and `interest` due: the last entry pays the debt plus the interest and leaves
      nothing, every other one pays the level payment. */
  function Entry(i: int, term: int, date: Date, debt: real, interest: real, monthlyPayment: real)
    : (e: PaymentScheduleElement)
    ensures e.number == i + 1 && e.date == date && e.interestPayment == interest
    ensures e.totalPayment == e.interestPayment + e.debtPayment
    ensures i != term - 1 ==> e.totalPayment == monthlyPayment && e.remainingDebt == debt - e.debtPayment
    ensures i == term - 1 ==> e.debtPayment == debt && e.remainingDebt == 0.0
  {
    var last := i == term - 1;
    var payment := if last then debt + interest else monthlyPayment;
    var debtPayment := payment - interest;
    var remaining := if last then 0.0 else debt - debtPayment;
    PaymentScheduleElement(i + 1, date, payment, interest, debtPayment, remaining)
  }

  /** The due date of each entry, by index from zero. */
  type DateRule = nat -> Date

  /** The dates of the service's loop: the payment date starts at `first` and moves
      by `plusMonths(1)` after every entry. */
  function PaymentDates(first: Date): DateRule {
    (n: nat) => MonthsAfter(first, n)
  }

  /** Entries `i + 1` to `term` of the plan, with `debt` outstanding before entry
      `i + 1`. */
  function ScheduleFrom(i: nat, term: int, dateOf: DateRule, debt: real, interestOf: InterestRule, monthlyPayment: real)
    : (s: seq<PaymentScheduleElement>)
    decreases term - i
    ensures |s| == if i < term then term - i else 0
  {
    if i >= term then []
    else
      var date := dateOf(i);
      var entry := Entry(i, term, date, debt, interestOf(debt, date, i), monthlyPayment);
      [entry] + ScheduleFrom(i + 1, term, dateOf, entry.remainingDebt, interestOf, monthlyPayment)
  }

  /** A plan from entry `i + 1` on is that entry followed by the plan from the next
      entry, starting from the debt the entry leaves. */
  lemma ScheduleFromStep(i: nat, term: int, dateOf: DateRule, debt: real, interestOf: InterestRule, monthlyPayment: real)
    requires i < term
    ensures var date := dateOf(i);
      var entry := Entry(i, term, date, debt, interestOf(debt, date, i), monthlyPayment);
      ScheduleFrom(i, term, dateOf, debt, interestOf, monthlyPayment)
      == [entry] + ScheduleFrom(i + 1, term, dateOf, entry.remainingDebt, interestOf, monthlyPayment)
  {
  }

  /** The payment plan for `amount` at `rate` over `term` months, the first payment
      due on `firstPaymentDate`: `term` entries numbered from 1 (a non-positive term
      gives no entries). Their dates are stated by `PaymentScheduleDates`. */
  function PaymentSchedule(amount: real, rate: real, term: int, monthlyPayment: real, firstPaymentDate: Date)
    : (s: seq<PaymentScheduleElement>)
    ensures |s| == if term > 0 then term else 0
    ensures forall j :: 0 <= j < |s| ==> s[j].number == j + 1
  {
    var s := ScheduleFrom(0, term, PaymentDates(firstPaymentDate), amount, MonthInterest(rate), monthlyPayment);
    forall j | 0 <= j < |s|
      ensures s[j].number == j + 1
    {
      ScheduleEntry(0, term, PaymentDates(firstPaymentDate), amount, MonthInterest(rate), monthlyPayment, j);
    }
    s
  }

  /** Entry `j` of the plan is due `j` steps of one month after the first payment. */
  lemma PaymentScheduleDate(amount: real, rate: real, term: int, monthlyPayment: real, firstPaymentDate: Date, j: nat)
    requires j < term
    ensures PaymentSchedule(amount, rate, term, monthlyPayment, firstPaymentDate)[j].date == MonthsAfter(firstPaymentDate, j)
  {
    var s := PaymentSchedule(amount, rate, term, monthlyPayment, firstPaymentDate);
    var dates := PaymentDates(firstPaymentDate);
    ScheduleEntry(0, term, dates, amount, MonthInterest(rate), monthlyPayment, j);
    assert s[j].date == dates(j);
  }

  /** Entry `j` of a plan is the entry computed for its index and date from the debt
      the entries before it left outstanding. */
  lemma {:induction false} ScheduleEntry(i: nat, term: int, dateOf: DateRule, debt: real, interestOf: InterestRule,
                                         monthlyPayment: real, j: nat)
    requires i + j < term
    decreases j
    ensures var s := ScheduleFrom(i, term, dateOf, debt, interestOf, monthlyPayment);
      var before := DebtBefore(s, debt, j);
      var date := dateOf(i + j);
      s[j] == Entry(i + j, term, date, before, interestOf(before, date, i + j), monthlyPayment)
  {
    var s := ScheduleFrom(i, term, dateOf, debt, interestOf, monthlyPayment);
    var date := dateOf(i);
    var entry := Entry(i, term, date, debt, interestOf(debt, date, i), monthlyPayment);
    var rest := ScheduleFrom(i + 1, term, dateOf, entry.remainingDebt, interestOf, monthlyPayment);
    ScheduleFromStep(i, term, dateOf, debt, interestOf, monthlyPayment);
    if j == 0 {
      assert s[0] == entry && DebtBefore(s, debt, 0) == debt;
    } else {
      ScheduleEntry(i + 1, term, dateOf, entry.remainingDebt, interestOf, monthlyPayment, j - 1);
      DebtBeforeTail(s, entry, rest, debt, j);
      assert i + 1 + (j - 1) == i + j;
    }
  }

  /** Entry `j` of a plan that starts with `entry` is entry `j - 1` of the rest, with the
      debt `entry` leaves in place of the initial debt. */
  lemma DebtBeforeTail(s: seq<PaymentScheduleElement>, entry: PaymentScheduleElement,
                       rest: seq<PaymentScheduleElement>, debt: real, j: nat)
    requires s == [entry] + rest && 0 < j < |s|
    ensures s[j] == rest[j - 1]
    ensures DebtBefore(s, debt, j) == DebtBefore(rest, entry.remainingDebt, j - 1)
  {
  }

  /** The outstanding debt plus the principal repaid so far is always the initial debt. */
  lemma {:induction false} ScheduleBalance(i: nat, term: int, dateOf: DateRule, debt: real, interestOf: InterestRule,
                                           monthlyPayment: real, j: nat)
    requires j <= |ScheduleFrom(i, term, dateOf, debt, interestOf, monthlyPayment)|
    decreases j
    ensures var s := ScheduleFrom(i, term, dateOf, debt, interestOf, monthlyPayment);
      DebtBefore(s, debt, j) + SumDebt(s[..j]) == debt
  {
    var s := ScheduleFrom(i, term, dateOf, debt, interestOf, monthlyPayment);
    if j > 0 {
      var date := dateOf(i);
      var entry := Entry(i, term, date, debt, interestOf(debt, date, i), monthlyPayment);
      var rest := ScheduleFrom(i + 1, term, dateOf, entry.remainingDebt, interestOf, monthlyPayment);
      ScheduleFromStep(i, term, dateOf, debt, interestOf, monthlyPayment);
      assert s[..j][1..] == rest[..j - 1];
      ScheduleBalance(i + 1, term, dateOf, entry.remainingDebt, interestOf, monthlyPayment, j - 1);
      if j > 1 {
        DebtBeforeTail(s, entry, rest, debt, j - 1);
      }
      assert DebtBefore(s, debt, j) == DebtBefore(rest, entry.remainingDebt, j - 1);
    }
  }

  /** The principal portions of the whole plan add up to the amount exactly, and the
      final balance is zero: every rounding residue is absorbed by the last payment. */
  lemma PaymentScheduleRepaysAmount(amount: real, rate: real, term: int, monthlyPayment: real, firstPaymentDate: Date)
    requires term > 0
    ensures var s := PaymentSchedule(amount, rate, term, monthlyPayment, firstPaymentDate);
      SumDebt(s) == amount && s[|s| - 1].remainingDebt == 0.0
  {
    var s := PaymentSchedule(amount, rate, term, monthlyPayment, firstPaymentDate);
    ScheduleBalance(0, term, PaymentDates(firstPaymentDate), amount, MonthInterest(rate), monthlyPayment, |s|);
    ScheduleEntry(0, term, PaymentDates(firstPaymentDate), amount, MonthInterest(rate), monthlyPayment, |s| - 1);
    assert s[..|s|] == s;
  }

  /** The bookkeeping of one entry of the plan: the payment splits into interest and
      principal; the interest is computed on the debt outstanding before the entry
      with the entry's day-count coefficient; an entry other than the last pays the
      level payment and reduces the debt by its principal; the last one pays the
      outstanding debt and leaves zero. */
  lemma PaymentScheduleEntry(amount: real, rate: real, term: int, monthlyPayment: real, firstPaymentDate: Date, j: nat)
    requires j < term
    ensures var s := PaymentSchedule(amount, rate, term, monthlyPayment, firstPaymentDate);
      var before := DebtBefore(s, amount, j);
      && s[j].totalPayment == s[j].interestPayment + s[j].debtPayment
      && s[j].interestPayment == InterestPayment(before, rate, DailyCoefficient(s[j].date, j))
      && (j < term - 1 ==> s[j].totalPayment == monthlyPayment && s[j].remainingDebt == before - s[j].debtPayment)
      && (j == term - 1 ==> s[j].debtPayment == before && s[j].remainingDebt == 0.0)
  {
    var s := PaymentSchedule(amount, rate, term, monthlyPayment, firstPaymentDate);
    var dates, rule := PaymentDates(firstPaymentDate), MonthInterest(rate);
    ScheduleEntry(0, term, dates, amount, rule, monthlyPayment, j);
    var before, date := DebtBefore(s, amount, j), dates(j);
    assert s[j] == Entry(j, term, date, before, rule(before, date, j), monthlyPayment);
    MonthInterestApplies(rate, before, date, j);
  }

  lemma MonthInterestApplies(rate: real, debt: real, date: Date, index: int)
    ensures MonthInterest(rate)(debt, date, index) == InterestPayment(debt, rate, DailyCoefficient(date, index))
  {
  }

  /** The same bookkeeping for the whole plan at once. */
  lemma PaymentScheduleEntries(amount: real, rate: real, term: int, monthlyPayment: real, firstPaymentDate: Date)
    ensures var s := PaymentSchedule(amount, rate, term, monthlyPayment, firstPaymentDate);
      && (forall j :: 0 <= j < |s| ==> s[j].totalPayment == s[j].interestPayment + s[j].debtPayment)
      && (forall j :: 0 <= j < |s| ==>
            s[j].interestPayment == InterestPayment(DebtBefore(s, amount, j), rate, DailyCoefficient(s[j].date, j)))
      && (forall j :: 0 <= j < |s| - 1 ==>
            s[j].totalPayment == monthlyPayment && s[j].remainingDebt == DebtBefore(s, amount, j) - s[j].debtPayment)
      && (|s| > 0 ==>
            && s[|s| - 1].debtPayment == DebtBefore(s, amount, |s| - 1)
            && s[|s| - 1].totalPayment == DebtBefore(s, amount, |s| - 1) + s[|s| - 1].interestPayment
            && s[|s| - 1].remainingDebt == 0.0)
  {
    var s := PaymentSchedule(amount, rate, term, monthlyPayment, firstPaymentDate);
    forall j | 0 <= j < |s|
      ensures s[j].totalPayment == s[j].interestPayment + s[j].debtPayment
      ensures s[j].interestPayment == InterestPayment(DebtBefore(s, amount, j), rate, DailyCoefficient(s[j].date, j))
      ensures j < |s| - 1 ==>
        s[j].totalPayment == monthlyPayment && s[j].remainingDebt == DebtBefore(s, amount, j) - s[j].debtPayment
      ensures j == |s| - 1 ==> s[j].debtPayment == DebtBefore(s, amount, j) && s[j].remainingDebt == 0.0
    {
      PaymentScheduleEntry(amount, rate, term, monthlyPayment, firstPaymentDate, j);
    }
  }

  /** In the whole plan the first entry is due on the first payment date and each
      later one a calendar month after the one before. */
  lemma PaymentScheduleDates(amount: real, rate: real, term: int, monthlyPayment: real, firstPaymentDate: Date)
    ensures var s := PaymentSchedule(amount, rate, term, monthlyPayment, firstPaymentDate);
      && (forall j :: 0 <= j < |s| ==> s[j].date == MonthsAfter(firstPaymentDate, j))
      && (|s| > 0 ==> s[0].date == firstPaymentDate)
      && (forall j :: 0 < j < |s| ==> s[j].date == PlusMonths(s[j - 1].date, 1))
  {
    var s := PaymentSchedule(amount, rate, term, monthlyPayment, firstPaymentDate);
    forall j | 0 <= j < |s|
      ensures s[j].date == MonthsAfter(firstPaymentDate, j)
    {
      PaymentScheduleDate(amount, rate, term, monthlyPayment, firstPaymentDate, j);
    }
  }

  /** The first entry never takes the January split, even when it falls in January. */
  lemma FirstEntryHasNoSplit(amount: real, rate: real, term: int, monthlyPayment: real, firstPaymentDate: Date)
    requires term > 0
    ensures var s := PaymentSchedule(amount, rate, term, monthlyPayment, firstPaymentDate);
      var before := MinusMonths(firstPaymentDate, 1);
      s[0].interestPayment == InterestPayment(amount, rate,
        RoundHalfEven(LengthOfMonth(before.year, before.month) as real / YearLength(firstPaymentDate.year) as real, 20))
  {
    ScheduleEntry(0, term, PaymentDates(firstPaymentDate), amount, MonthInterest(rate), monthlyPayment, 0);
  }
}
