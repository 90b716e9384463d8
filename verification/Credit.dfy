/**
 The credit stage: after the full validation passes, the credit rate is derived
 from the applicant's data, and the credit is built with its monthly payment,
 its full cost (PSK) and its payment schedule.
 */
module Credit {
  import opened Decimal
  import opened Calendar
  import opened Domain
  import opened Annuity
  import opened Validation
  import opened Schedule

  /** Rate points for the employment status. */
  function StatusDelta(status: EmploymentStatus): real {
    match status
    case SelfEmployed => 1.0
    case BusinessOwner => 3.0
    case _ => 0.0
  }

  /** Rate points for the position. */
  function PositionDelta(position: Position): real {
    match position
    case MiddleManager => -2.0
    case TopManager => -4.0
    case _ => 0.0
  }

  /** Rate points for the marital status. */
  function MaritalDelta(status: MaritalStatus): real {
    match status
    case Married => -3.0
    case Divorced => 1.0
    case _ => 0.0
  }

  /** Rate points for more than one dependent. */
  function DependentsDelta(dependentAmount: int): real {
    if dependentAmount > 1 then 1.0 else 0.0
  }

  /** Rate points for gender and age: women of 35 to 60 and men of 30 to 55 get three
      points off, non-binary applicants three points on. */
  function GenderDelta(gender: Gender, age: int): real {
    match gender
    case Female => if 35 <= age <= 60 then -3.0 else 0.0
    case Male => if 30 <= age <= 55 then -3.0 else 0.0
    case NonBinary => 3.0
  }

  /** The credit rate: the default rate adjusted one rule after another, in the order
      of the service. It is the default rate plus one delta per category, so it stays
      within ten points below and eight points above the default rate. */
  function CreditRate(defaultRate: real, request: ScoringData, today: Date): (r: real)
    ensures r == defaultRate
      + StatusDelta(request.employment.employmentStatus)
      + PositionDelta(request.employment.position)
      + MaritalDelta(request.maritalStatus)
      + DependentsDelta(request.dependentAmount)
      + GenderDelta(request.gender, Age(request.birthdate, today))
    ensures defaultRate - 10.0 <= r <= defaultRate + 8.0
  {
    var status := request.employment.employmentStatus;
    var position := request.employment.position;
    var selfEmployed := if status == SelfEmployed then defaultRate + 1.0 else defaultRate;
    var byStatus := if status == BusinessOwner then selfEmployed + 3.0 else selfEmployed;
    assert byStatus == defaultRate + StatusDelta(status);
    var middleManager := if position == MiddleManager then byStatus - 2.0 else byStatus;
    var byPosition := if position == TopManager then middleManager - 4.0 else middleManager;
    assert byPosition == defaultRate + StatusDelta(status) + PositionDelta(position);
    var married := if request.maritalStatus == Married then byPosition - 3.0 else byPosition;
    var byMarital := if request.maritalStatus == Divorced then married + 1.0 else married;
    var byDependents := if request.dependentAmount > 1 then byMarital + 1.0 else byMarital;
    var partial := defaultRate + StatusDelta(status) + PositionDelta(position)
      + MaritalDelta(request.maritalStatus) + DependentsDelta(request.dependentAmount);
    assert byDependents == partial;
    var age := Age(request.birthdate, today);
    var female := if request.gender == Female && age >= 35 && age <= 60 then byDependents - 3.0 else byDependents;
    var male := if request.gender == Male && age >= 30 && age <= 55 then female - 3.0 else female;
    var byGender := if request.gender == NonBinary then male + 3.0 else male;
    assert byGender == partial + GenderDelta(request.gender, age);
    byGender
  }

  /** The credit rate does not look at the insurance and salary-client options: the
      discounts of the offer stage are not applied to the credit. */
  lemma CreditRateIgnoresOptions(defaultRate: real, request: ScoringData, today: Date, insurance: bool, salaryClient: bool)
    ensures CreditRate(defaultRate, request.(isInsuranceEnabled := insurance, isSalaryClient := salaryClient), today)
         == CreditRate(defaultRate, request, today)
  {
  }

  /** The full cost of the credit in percent: the overpayment `monthlyPayment * term - amount`
      relative to the amount (rounded to 20 digits), times 100, rounded to cents. It
      is within half a cent (plus the first rounding, scaled) of the exact percentage. */
  function Psk(monthlyPayment: real, term: int, amount: real): (r: real)
    requires amount != 0.0
    ensures HasScale(r, 2)
    ensures Abs(r - 100.0 * ((monthlyPayment * term as real - amount) / amount)) <= 0.005 + 0.0000000000000000005
  {
    var ratio := (monthlyPayment * term as real - amount) / amount;
    var rounded := RoundHalfEven(ratio, 20);
    var r := RoundHalfEven(rounded * 100.0, 2);
    PskClose(ratio, rounded, r);
    r
  }

  lemma PskClose(ratio: real, rounded: real, r: real)
    requires rounded == RoundHalfEven(ratio, 20) && r == RoundHalfEven(rounded * 100.0, 2)
    ensures Abs(r - 100.0 * ratio) <= 0.005 + 0.0000000000000000005
  {
    Pow10Values();
    assert Abs(rounded - ratio) <= 0.000000000000000000005;
    assert Abs(r - rounded * 100.0) <= 0.005;
  }

  /** No overpayment gives no cost, and paying back at least the amount never gives a
      negative cost. */
  lemma PskSign(monthlyPayment: real, term: int, amount: real)
    requires amount > 0.0
    ensures monthlyPayment * term as real == amount ==> Psk(monthlyPayment, term, amount) == 0.0
    ensures monthlyPayment * term as real >= amount ==> Psk(monthlyPayment, term, amount) >= 0.0
  {
    var ratio := (monthlyPayment * term as real - amount) / amount;
    if monthlyPayment * term as real >= amount {
      assert ratio >= 0.0;
      RoundHalfEvenNonNegative(ratio, 20);
      RoundHalfEvenNonNegative(RoundHalfEven(ratio, 20) * 100.0, 2);
    }
    if monthlyPayment * term as real == amount {
      assert ratio == 0.0;
      assert HasScale(0.0, 20) && HasScale(0.0, 2);
      RoundHalfEvenKeepsScaled(0.0, 20);
      RoundHalfEvenKeepsScaled(0.0, 2);
    }
  }

  /** The credit for `amount` over `term` months at `rate`; absent exactly when the
      service throws: the annuity cannot be computed, or the amount is zero (the PSK
      divides by it). The first payment is due one month after `today`. */
  function CreateCredit(amount: real, term: int, rate: real, isInsuranceEnabled: bool, isSalaryClient: bool,
                        today: Date): (r: Option<Credit>)
    ensures r.Some? <==> AnnuityDefined(rate, term) && amount != 0.0
    ensures r.Some? ==>
      && r.value.amount == amount && r.value.term == term && r.value.rate == rate
      && r.value.isInsuranceEnabled == isInsuranceEnabled && r.value.isSalaryClient == isSalaryClient
      && Some(r.value.monthlyPayment) == MonthlyPayment(amount, rate, term)
      && r.value.psk == Psk(r.value.monthlyPayment, term, amount)
      && r.value.paymentSchedule == PaymentSchedule(amount, rate, term, r.value.monthlyPayment, PlusMonths(today, 1))
      && |r.value.paymentSchedule| == term
  {
    match MonthlyPayment(amount, rate, term)
    case None => None
    case Some(monthlyPayment) =>
      if amount == 0.0 then None
      else
        var psk := Psk(monthlyPayment, term, amount);
        var firstPaymentDate := PlusMonths(today, 1);
        Some(Credit(amount, term, monthlyPayment, rate, psk, isInsuranceEnabled, isSalaryClient,
                    PaymentSchedule(amount, rate, term, monthlyPayment, firstPaymentDate)))
  }

  /** The credit stage: scoring first, then the rate, then the credit. */
  function CalculationLoanParams(request: ScoringData, basic: BasicConfiguration, scoring: ScoringConfiguration,
                                 today: Date): (r: Outcome<Credit>)
    ensures r.Rejected? <==> Scoring(request, scoring, today) != []
    ensures r.Rejected? ==> r.reasons == Scoring(request, scoring, today)
    ensures r.ArithmeticError? <==>
      && Scoring(request, scoring, today) == []
      && (!AnnuityDefined(CreditRate(basic.defaultRate, request, today), request.term) || request.amount == 0.0)
    ensures r.Success? ==>
      && r.value.rate == CreditRate(basic.defaultRate, request, today)
      && r.value.amount == request.amount && r.value.term == request.term
      && r.value.isInsuranceEnabled == request.isInsuranceEnabled && r.value.isSalaryClient == request.isSalaryClient
      && Some(r.value) == CreateCredit(request.amount, request.term, CreditRate(basic.defaultRate, request, today),
                                       request.isInsuranceEnabled, request.isSalaryClient, today)
      && |r.value.paymentSchedule| == request.term
      && r.value.paymentSchedule[0].date == PlusMonths(today, 1)
  {
    var reasons := Scoring(request, scoring, today);
    if reasons != [] then Rejected(reasons)
    else
      var rate := CreditRate(basic.defaultRate, request, today);
      match CreateCredit(request.amount, request.term, rate, request.isInsuranceEnabled, request.isSalaryClient, today)
      case None => ArithmeticError
      case Some(credit) =>
        PaymentScheduleDate(request.amount, rate, request.term, credit.monthlyPayment, PlusMonths(today, 1), 0);
        Success(credit)
  }

  /** Every credit the stage returns repays its amount: the principal portions of its
      schedule add up to the amount and the last entry leaves no debt. */
  lemma CreditRepaysAmount(request: ScoringData, basic: BasicConfiguration, scoring: ScoringConfiguration,
                           today: Date)
    requires CalculationLoanParams(request, basic, scoring, today).Success?
    ensures var schedule := CalculationLoanParams(request, basic, scoring, today).value.paymentSchedule;
      && request.term >= 1
      && SumDebt(schedule) == request.amount
      && schedule[request.term - 1].remainingDebt == 0.0
  {
    var rate := CreditRate(basic.defaultRate, request, today);
    var credit := CalculationLoanParams(request, basic, scoring, today).value;
    AnnuityDefinedIff(rate, request.term);
    PaymentScheduleRepaysAmount(request.amount, rate, request.term, credit.monthlyPayment, PlusMonths(today, 1));
  }

  /** A request that passes scoring gets its credit whenever the default rate is at
      least eleven percent (so the credit rate is at least one), the term is in
      `1..MaxTerm` and the amount is not zero; its schedule then repays
      the amount exactly. */
  lemma CreditExists(request: ScoringData, basic: BasicConfiguration, scoring: ScoringConfiguration, today: Date)
    requires Scoring(request, scoring, today) == []
    requires basic.defaultRate >= 11.0 && 1 <= request.term <= MaxTerm && request.amount != 0.0
    ensures var r := CalculationLoanParams(request, basic, scoring, today);
      && r.Success?
      && SumDebt(r.value.paymentSchedule) == request.amount
      && r.value.paymentSchedule[request.term - 1].remainingDebt == 0.0
  {
    var rate := CreditRate(basic.defaultRate, request, today);
    MonthlyRatePositive(rate);
    AnnuityDefinedIff(rate, request.term);
    CreditRepaysAmount(request, basic, scoring, today);
  }
}
