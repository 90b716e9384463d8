# Conveyor loan calculator — a Dafny model

This project models the calculation core of a loan "conveyor" service, the class
`ConveyorServiceImpl`. A loan request goes through two stages.

1. **Offers.** The prescoring validator runs nine independent field checks. When
   all pass, the service returns four loan offers, one for each combination of the
   insurance and salary-client options. Each offer has its own discounted rate and
   an annuity payment.
2. **Credit.** The scoring validator runs five checks. When all pass, the service
   derives the credit rate from the applicant's data by additive deltas. It then
   builds the credit: the annuity payment, the full cost of the credit (PSK) and
   the month-by-month payment schedule.

Amounts are Java `BigDecimal`s with explicit HALF_EVEN rounding. They are modelled
as exact `real` numbers, and `Decimal.RoundHalfEven` rounds them to a number of
fractional digits. Dates follow `java.time.LocalDate` and `Period` in the
proleptic Gregorian calendar:
- `plusMonths` and `minusMonths` clamp the day of month;
- `until` computes whole months first and then days;
- age is the whole years of that period.

The current date and the three configuration groups are parameters. The
service's exceptions become results:
- a validation failure is `Outcome.Rejected` with the ordered reasons;
- an `ArithmeticException` from `BigDecimal` is `Outcome.ArithmeticError` (or
  `Option.None` one level down).

Modules, one per file:
- `Decimal`: HALF_EVEN rounding, exact powers.
- `Calendar`: `LocalDate` arithmetic, `Period`, age.
- `Patterns`: the four fixed regular expressions as character-class predicates.
- `Domain`: configuration, requests, reasons, offers, credit, schedule entries.
- `Validation`: prescoring and scoring.
- `Annuity`: monthly rate, annuity coefficient, monthly payment.
- `Offers`: offer rate, offers, `getLoanOffers`.
- `Schedule`: day-count coefficient, interest, the payment schedule.
- `Credit`: credit rate, PSK, credit, `calculationLoanParams`.
- `Scenarios`: the four request scenarios of the service's unit tests.

Some behaviour of the code is easy to misread; the model keeps it as written:
- PSK: the code first rounds the overpayment ratio to 20 digits, then multiplies
  it by 100 and rounds to cents.
- Schedule balance: nothing in the code makes the remaining balance decrease
  from month to month. The model claims only what the code does: level payments,
  the last entry clearing the debt, and principal portions summing to the amount.
- Payment dates: each one is the previous date plus one month. Because of
  clamping, the day of month can drift down and stay there (Jan 31, Feb 28,
  Mar 28). It is not `firstPaymentDate.plusMonths(j)` (`Schedule.MonthsAfter`).
- January 1 payments: the December day count of the year-boundary split is -1,
  because December 1 to January 1 is one whole month and zero days. Such a
  payment gets a coefficient of almost zero, and so almost no interest.
- Term limits: the annuity computation throws for every term above 26843545
  (`Annuity.MaxTerm`), whatever the rate. The base `1 + monthlyRate` has scale 20,
  so the power has scale `20 * term` and the numerator `20 + 20 * term`; both must
  fit a Java `int`. Subtracting 1 from the power rescales the 1 by `10^(20 * term)`,
  and Java's `BigInteger.pow` refuses that power of ten once its estimated length,
  4 bits per factor of ten, exceeds 2^26 words. That last limit binds first
  (`Annuity.TermInRange`).

All source paths below are relative to the repository root.

## Model

| member | source | states |
|---|---|---|
| Decimal.RoundToEven | src/main/java/com/project/conveyor/service/ConveyorServiceImpl.java:126 | HALF_EVEN to an integer: the result is strictly nearest, or it is an exact tie and the even neighbour |
| Decimal.RoundToEvenIsNearest | src/main/java/com/project/conveyor/service/ConveyorServiceImpl.java:126 | no integer is closer to the input than the HALF_EVEN result |
| Decimal.RoundToEvenUnique | src/main/java/com/project/conveyor/service/ConveyorServiceImpl.java:126 | any integer meeting the HALF_EVEN rule is the result, so the rule determines the rounding |
| Decimal.RoundHalfEven | src/main/java/com/project/conveyor/service/ConveyorServiceImpl.java:139 | `setScale(d, HALF_EVEN)`: the result has at most `d` fractional digits and is the HALF_EVEN rounding of the value shifted by `d` digits, and it differs from the exact value by at most half of 10^-d |
| Decimal.RoundHalfEvenKeepsScaled | src/main/java/com/project/conveyor/service/ConveyorServiceImpl.java:139 | a value that already has `d` digits is unchanged by rounding to `d` digits |
| Decimal.RoundHalfEvenIdempotent | src/main/java/com/project/conveyor/service/ConveyorServiceImpl.java:139 | rounding twice to the same scale equals rounding once |
| Decimal.PowerOfOne | src/main/java/com/project/conveyor/service/ConveyorServiceImpl.java:127 | `1^n = 1`, so a zero monthly rate makes the annuity divisor zero |
| Decimal.PowerAboveOne | src/main/java/com/project/conveyor/service/ConveyorServiceImpl.java:127 | `x^n > 1` for `x > 1` and `n >= 1`, so a positive monthly rate keeps the divisor non-zero |
| Calendar.PlusMonths | src/main/java/com/project/conveyor/service/ConveyorServiceImpl.java:323 | `plusMonths`: moves by exactly `n` proleptic months and clamps the day to the target month's length |
| Calendar.MinusMonths | src/main/java/com/project/conveyor/service/ConveyorServiceImpl.java:264 | `minusMonths`: moves back by exactly `n` months, with the same clamping |
| Calendar.MinusYears | src/main/java/com/project/conveyor/service/ConveyorServiceImpl.java:274 | `minusYears`: same month, `n` years earlier, day clamped (Feb 29 becomes Feb 28) |
| Calendar.FirstOfMonth | src/main/java/com/project/conveyor/service/ConveyorServiceImpl.java:281 | `withDayOfMonth(1)`: same year and month, day 1 |
| Calendar.PeriodAddsBack | src/main/java/com/project/conveyor/service/ConveyorServiceImpl.java:281-283 | for ordered dates, `until` gives non-negative whole months, months below 12 and non-negative days, and adding the months and then the days to the start reaches the end |
| Calendar.Until | src/main/java/com/project/conveyor/service/ConveyorServiceImpl.java:77 | `until` gives months below 12 in size, years and months of the same sign, and the zero period between a date and itself |
| Calendar.Age | src/main/java/com/project/conveyor/service/ConveyorServiceImpl.java:425 | the age is never negative from the birth date on and never positive before it |
| Calendar.AgeAtLeastIff | src/main/java/com/project/conveyor/service/ConveyorServiceImpl.java:76-78 | the age in whole years is at least `n` exactly from the `n`-th birthday on; a Feb 29 birthday counts from Mar 1 in common years |
| Calendar.LengthOfMonth | src/main/java/com/project/conveyor/service/ConveyorServiceImpl.java:264 | `lengthOfMonth()`: between 28 and 31 days, and 29 exactly for February of a leap year |
| Calendar.IsLeapAsJava | src/main/java/com/project/conveyor/service/ConveyorServiceImpl.java:274-277 | the leap-year rule agrees with `isLeapYear()`'s form for every year, negative ones included: a remainder of 0 by 4, and the truncating remainders by 100 and 400 |
| Calendar.YearOfMonths | src/main/java/com/project/conveyor/service/ConveyorServiceImpl.java:293-294 | the twelve month lengths of a year add up to its `isLeapYear() ? 366 : 365` length |
| Calendar.MonthStartIsMonthLengths | src/main/java/com/project/conveyor/service/ConveyorServiceImpl.java:281-283 | the month term of the epoch day count is the sum of the lengths of the months before it |
| Calendar.YearOfEpochDays | src/main/java/com/project/conveyor/service/ConveyorServiceImpl.java:275-277 | the epoch day count grows by the year's length from one New Year's Day to the next |
| Calendar.EpochDayNextMonth | src/main/java/com/project/conveyor/service/ConveyorServiceImpl.java:264 | between a date and a date in the next month lie the rest of the first month plus the day of the second |
| Patterns.IndexOf | src/main/java/com/project/conveyor/service/ConveyorServiceImpl.java:85 | finds the first `@`: the character there is `@` and none comes before it; -1 exactly when there is none |
| Patterns.MatchesRepeatIff | src/main/java/com/project/conveyor/service/ConveyorServiceImpl.java:39 | a stepwise matcher of a class repeated `{lo,hi}` times, anchored at both ends, accepts exactly the strings of `lo` to `hi` characters of the class |
| Patterns.IsNameMatches | src/main/java/com/project/conveyor/service/ConveyorServiceImpl.java:39-55 | the name check accepts exactly what the matcher of `[a-zA-Z]{2,30}` accepts |
| Patterns.IsDigitsMatches | src/main/java/com/project/conveyor/service/ConveyorServiceImpl.java:92-99 | the passport checks accept exactly what the matcher of `[0-9]{n}` accepts |
| Patterns.IsEmailRunMatches | src/main/java/com/project/conveyor/service/ConveyorServiceImpl.java:85 | each half of the email check accepts exactly what the matcher of `[\w.]{lo,hi}` accepts |
| Patterns.IsEmailMatchesPattern | src/main/java/com/project/conveyor/service/ConveyorServiceImpl.java:84-85 | splitting at the first `@` accepts exactly the strings that some `@` splits into a 2–50 run and a 2–20 run of `[\w.]` |
| Validation.Collect | src/main/java/com/project/conveyor/service/ConveyorServiceImpl.java:36-104 | every failed check contributes its reason; no more reasons than checks; empty iff all checks pass |
| Validation.CollectOnlyFailures | src/main/java/com/project/conveyor/service/ConveyorServiceImpl.java:36-104 | every reported reason is the reason of some failed check |
| Validation.CollectKeepsOrder | src/main/java/com/project/conveyor/service/ConveyorServiceImpl.java:36-104 | the reported reasons are the check reasons with the passed ones left out, order kept |
| Validation.CollectAllFailed | src/main/java/com/project/conveyor/service/ConveyorServiceImpl.java:36-104 | when every check fails, every reason is reported, in check order |
| Validation.CollectReportsExactlyFailures | src/main/java/com/project/conveyor/service/ConveyorServiceImpl.java:36-104 | with distinct reasons, a reason appears exactly when its own check failed |
| Validation.CollectReportsFailures | src/main/java/com/project/conveyor/service/ConveyorServiceImpl.java:36-104 | the same for all reasons at once |
| Validation.Prescoring | src/main/java/com/project/conveyor/service/ConveyorServiceImpl.java:34-104 | empty iff all nine checks hold; each of the nine reasons appears iff its check failed; reasons in check order |
| Validation.PrescoringAllFail | src/test/java/com/project/conveyor/service/ConveyorServiceImplTest.java:51-86 | a request failing every check gets exactly the nine reasons, in order |
| Validation.PrescoringBoundaries | src/main/java/com/project/conveyor/service/ConveyorServiceImpl.java:61-82 | the amount and term minimums are inclusive; the age check passes exactly from the `minAge`-th birthday on |
| Validation.Scoring | src/main/java/com/project/conveyor/service/ConveyorServiceImpl.java:200-236 | empty iff employed, amount at most salary times ratio, age in the inclusive range, total experience at least its minimum and current experience strictly above its minimum; each reason iff its check failed; check order |
| Validation.ScoringAllFail | src/test/java/com/project/conveyor/service/ConveyorServiceImplTest.java:127-169 | a request failing every scoring check gets exactly the five reasons, in order |
| Annuity.AnnuityCoefficient | src/main/java/com/project/conveyor/service/ConveyorServiceImpl.java:126-133 | the coefficient has 20 digits and is within half a unit of the last place of `r(1+r)^n/((1+r)^n-1)` |
| Annuity.MonthlyPayment | src/main/java/com/project/conveyor/service/ConveyorServiceImpl.java:126-139 | present exactly when the term is within Java's limits (0 to 26843545) and the divisor is non-zero; then it has cents and is within half a cent of amount times coefficient |
| Annuity.AnnuityDefinedIff | src/main/java/com/project/conveyor/service/ConveyorServiceImpl.java:127-133 | a zero monthly rate, a zero term, a negative term or a term above 26843545 makes the computation throw; a positive monthly rate with a term from 1 to 26843545 does not |
| Annuity.MonthlyRate | src/main/java/com/project/conveyor/service/ConveyorServiceImpl.java:126 | the monthly rate has 20 digits and is within half a unit of the 20th digit of the yearly rate over 1200 |
| Annuity.TermInRangeIff | src/main/java/com/project/conveyor/service/ConveyorServiceImpl.java:127-133 | the Java limits on the term (pow's exponent range, the scales of the power and the numerator, the length of the power of ten the subtraction needs) admit exactly the terms 0 to 26843545 |
| Annuity.MonthlyRatePositive | src/main/java/com/project/conveyor/service/ConveyorServiceImpl.java:126 | a yearly rate of at least 1% still gives a positive monthly rate after rounding to 20 digits |
| Annuity.BalanceClosedForm | src/main/java/com/project/conveyor/service/ConveyorServiceImpl.java:126-139 | under the exact annuity payment, the balance after `k` months times the divisor is `debt((1+r)^n - (1+r)^k)` |
| Annuity.AnnuityRepaysDebt | src/main/java/com/project/conveyor/service/ConveyorServiceImpl.java:126-139 | the exact coefficient is the one that repays: paying debt times it each month leaves zero after `n` months |
| Offers.OfferRate | src/main/java/com/project/conveyor/service/ConveyorServiceImpl.java:113-120 | default rate minus 3 with insurance and minus 1 for a salary client; within 4 points below the default rate; equal to it iff neither option is taken |
| Offers.CreateLoanOffer | src/main/java/com/project/conveyor/service/ConveyorServiceImpl.java:107-157 | present iff the annuity can be computed, so absent for a term above 26843545; then it carries the id, amount, term, options, the offer rate, the annuity payment at that rate and the total of the payments plus the insurance premium |
| Offers.OfferTotal | src/main/java/com/project/conveyor/service/ConveyorServiceImpl.java:141-145 | the total is the payments plus a tenth of the amount when insured; at least the payments for a non-negative amount; equal to them iff not insured or the amount is zero |
| Offers.InsuranceShare | src/main/java/com/project/conveyor/service/ConveyorServiceImpl.java:142-145 | the premium is a tenth of the amount when insured and zero otherwise; between zero and the amount for a non-negative amount; zero iff not insured or the amount is zero |
| Offers.OfferTotalFor | src/main/java/com/project/conveyor/service/ConveyorServiceImpl.java:141-145 | any offer whose total is its payments plus the premium has the three total facts above |
| Offers.BuildOffers | src/main/java/com/project/conveyor/service/ConveyorServiceImpl.java:168-194 | one offer per listed option pair, in list order, present iff every offer can be computed; each carries the id, amount, term, its options, its rate, its annuity payment and its total |
| Offers.GetLoanOffers | src/main/java/com/project/conveyor/service/ConveyorServiceImpl.java:159-198 | rejected iff prescoring fails, with its reasons; an arithmetic error iff it passes and some offer cannot be computed; otherwise four offers for (T,T), (T,F), (F,T), (F,F) with shared id, amount and term, each with its rate, payment and total |
| Offers.OfferRatesIncrease | src/main/java/com/project/conveyor/service/ConveyorServiceImpl.java:159-196 | the four offer rates strictly increase, from four points below the default rate to the default rate |
| Offers.OfferTotals | src/main/java/com/project/conveyor/service/ConveyorServiceImpl.java:141-145 | each of the four returned offers has a total equal to its payments plus a tenth of the amount when insured, and to its payments alone otherwise |
| Offers.OffersExist | src/main/java/com/project/conveyor/service/ConveyorServiceImpl.java:159-198 | a request that passes prescoring gets its four offers when the default rate is at least 5% and the term is from 1 to 26843545 |
| Schedule.DailyCoefficient | src/main/java/com/project/conveyor/service/ConveyorServiceImpl.java:264-296 | the coefficient is about a month's share of a year: between 28/366 and 31/365 outside the January split, between 31/366 and 31/365 in it, and almost zero for a January 1 payment in the split |
| Schedule.JanuaryDayCounts | src/main/java/com/project/conveyor/service/ConveyorServiceImpl.java:279-283 | in January the new-year part is the day of month; the December part is the days left in December, but -1 on January 1; the two add up to the days since the previous payment, or to 0 on January 1 |
| Schedule.MonthLengthIsElapsedDays | src/main/java/com/project/conveyor/service/ConveyorServiceImpl.java:264 | the previous month's length is the number of days since the same day of the previous month, when that day exists |
| Schedule.DailyCoefficientDays | src/main/java/com/project/conveyor/service/ConveyorServiceImpl.java:264-296 | the day-count coefficient in calendar terms: elapsed days over the year length outside the January split; December days over last year's length plus January days over this year's length in the split |
| Schedule.InterestPayment | src/main/java/com/project/conveyor/service/ConveyorServiceImpl.java:302-303 | the interest has cents and is within half a cent of debt times the rounded yearly rate fraction times the coefficient |
| Schedule.MonthsAfterDrift | src/main/java/com/project/conveyor/service/ConveyorServiceImpl.java:323 | after `n` steps of one month the date is `n` proleptic months later and its day of month never exceeds the first date's |
| Schedule.Entry | src/main/java/com/project/conveyor/service/ConveyorServiceImpl.java:305-321 | an entry's payment is interest plus principal; a non-last entry pays the level payment and reduces the debt by its principal; the last pays the whole debt and leaves zero |
| Schedule.ScheduleFrom | src/main/java/com/project/conveyor/service/ConveyorServiceImpl.java:261-326 | the remaining loop from index `i` yields `term - i` entries (their contents are stated by `Schedule.ScheduleEntry`) |
| Schedule.PaymentSchedule | src/main/java/com/project/conveyor/service/ConveyorServiceImpl.java:249-329 | exactly `term` entries, numbered 1 to `term` |
| Schedule.PaymentScheduleDate | src/main/java/com/project/conveyor/service/ConveyorServiceImpl.java:258-323 | entry `j` is dated `j` one-month steps after the first payment date |
| Schedule.ScheduleEntry | src/main/java/com/project/conveyor/service/ConveyorServiceImpl.java:258-326 | entry `j` is computed for its index and date from the debt the entry before it left |
| Schedule.ScheduleBalance | src/main/java/com/project/conveyor/service/ConveyorServiceImpl.java:259-314 | at every point the outstanding debt plus the principal repaid so far is the initial debt |
| Schedule.PaymentScheduleRepaysAmount | src/main/java/com/project/conveyor/service/ConveyorServiceImpl.java:305-314 | the principal portions sum exactly to the amount and the final balance is zero |
| Schedule.PaymentScheduleEntry | src/main/java/com/project/conveyor/service/ConveyorServiceImpl.java:302-321 | for one entry: payment is interest plus principal; the interest is computed on the debt outstanding before it with its own coefficient; a non-final entry pays the level payment and reduces the debt by its principal; the final one pays the remaining debt and leaves zero |
| Schedule.PaymentScheduleEntries | src/main/java/com/project/conveyor/service/ConveyorServiceImpl.java:302-321 | every entry's interest is computed on the debt outstanding before it with its own coefficient; non-final entries pay the level payment; the final one pays the remaining debt plus interest and leaves zero |
| Schedule.PaymentScheduleDates | src/main/java/com/project/conveyor/service/ConveyorServiceImpl.java:258-323 | every entry `j` is dated `j` one-month steps after the first payment date: the first entry on that date and each later one a calendar month after the one before |
| Schedule.FirstEntryHasNoSplit | src/main/java/com/project/conveyor/service/ConveyorServiceImpl.java:273-296 | the first entry never takes the January split, even when it falls in January |
| Credit.CreditRate | src/main/java/com/project/conveyor/service/ConveyorServiceImpl.java:393-434 | the default rate plus one delta per category (status, position, marital status, dependents, gender and age); between 10 points below and 8 points above the default rate |
| Credit.CreditRateIgnoresOptions | src/main/java/com/project/conveyor/service/ConveyorServiceImpl.java:436-441 | the insurance and salary-client options do not change the credit rate |
| Credit.Psk | src/main/java/com/project/conveyor/service/ConveyorServiceImpl.java:365-366 | the PSK has cents and is within half a cent, plus the scaled first rounding, of the exact overpayment percentage |
| Credit.PskSign | src/main/java/com/project/conveyor/service/ConveyorServiceImpl.java:365-366 | for a positive amount, no overpayment gives PSK 0 and paying back at least the amount gives a non-negative PSK |
| Credit.CreateCredit | src/main/java/com/project/conveyor/service/ConveyorServiceImpl.java:341-384 | present iff the annuity can be computed and the amount is non-zero, so absent for a term above 26843545; then it carries the annuity payment, its PSK and the schedule from one month after today |
| Credit.CalculationLoanParams | src/main/java/com/project/conveyor/service/ConveyorServiceImpl.java:386-444 | rejected iff scoring fails, with its reasons; an arithmetic error iff it passes and the credit cannot be computed; otherwise exactly the credit `CreateCredit` builds at the derived rate, with `term` entries, the first one month after today |
| Credit.CreditRepaysAmount | src/main/java/com/project/conveyor/service/ConveyorServiceImpl.java:386-444 | every credit the stage returns has a positive term, principal portions summing to the amount and a last entry leaving no debt |
| Credit.CreditExists | src/main/java/com/project/conveyor/service/ConveyorServiceImpl.java:386-444 | a request that passes scoring gets its credit when the default rate is at least 11%, the term is from 1 to 26843545 and the amount is non-zero; its schedule then repays the amount exactly |
| Scenarios.ValidApplicationGetsFourOffers | src/test/java/com/project/conveyor/service/ConveyorServiceImplTest.java:28-46 | the valid test application gets four offers from 2020-12-22 on, at a default rate of at least 5% |
| Scenarios.InvalidApplicationGetsNineReasons | src/test/java/com/project/conveyor/service/ConveyorServiceImplTest.java:49-87 | the invalid test application is rejected with the nine reasons in order, before its applicant turns 18 |
| Scenarios.GoodRequestGetsCredit | src/test/java/com/project/conveyor/service/ConveyorServiceImplTest.java:89-122 | the test scoring request gets a 12-entry credit at 5 points below the default rate between the applicant's 20th and 30th birthdays, whenever the default rate is at least 6% (so the credit rate is at least 1%) |
| Scenarios.BadRequestGetsFiveReasons | src/test/java/com/project/conveyor/service/ConveyorServiceImplTest.java:124-170 | the failing test scoring request is rejected with the five reasons in order, before its applicant turns 20 |

## Left out

- HTTP controllers, `ResponseEntity` wrapping and the mapping of exceptions to 400 responses: framework plumbing. The model returns `Outcome` values instead of throwing.
- `LocalDate.now()`: the current date is a parameter. It is the same date for every use within one call.
- Loading configuration from application properties: the three configuration groups are input records, and their values are not part of the model. The scenario lemmas state their assumptions about these values in their `requires`: a minimum amount above 100 and at most 100000, a minimum term above 5 and at most 6, and a minimum age of 18 for prescoring; ratio 20, ages 20–60 and experience 12 and 3 months for scoring. These values come from the rejection messages.
- The `javax.validation` annotations on the request DTO: nothing in the service triggers them.
- Null fields and the resulting `NullPointerException`s: every field of a request is present.
- The `LocalDate` year range (±999999999) and Java `int` widths: integers are unbounded, except for the limits that decide whether the annuity computation throws (`Annuity.TermInRange`).
- `BigDecimal` representation (scale-sensitive `equals`, `toString`, precision): only numeric values are modelled, with rounding at the scales the code uses. The memory and time a power with tens of millions of digits would take are left out.
- The enum types, which are not part of this model: their constants are those the service names, plus one "other" constructor where the code names only some.
- `ScoringDataDTO`, which is not part of this model: its fields follow the constructor order the tests use.
- Logging and the application entry point.
- Annuity.AnnuityDefinedIff: states when the computation throws only for a zero and for a positive monthly rate. A negative rate whose power happens to equal one is left to `AnnuityDefined` itself.
- Credit.Psk: bounds the PSK against the exact percentage within the two roundings rather than restating the double rounding as a formula.
- Annuity.MonthlyPayment: for monthly rates above about 12000 (yearly rates above about 14 million percent) `BigInteger` can also refuse `(1 + monthlyRate)^term` or the numerator for terms just below `Annuity.MaxTerm`; the model reports a payment there, because those limits depend on the bit length of the rate and are not modelled.
