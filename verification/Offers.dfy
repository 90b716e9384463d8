/**
 The offer stage: after the preliminary validation passes, four loan offers are
 built for the requested amount and term, one for each combination of the
 insurance and salary-client options.
 */
module Offers {
  import opened Calendar
  import opened Domain
  import opened Annuity
  import opened Validation

  /** The offer rate: the default rate, three points off with insurance, one point
      off for a salary client. */
  function OfferRate(defaultRate: real, isInsuranceEnabled: bool, isSalaryClient: bool): (r: real)
    ensures r == defaultRate - (if isInsuranceEnabled then 3.0 else 0.0) - (if isSalaryClient then 1.0 else 0.0)
    ensures defaultRate - 4.0 <= r <= defaultRate
    ensures r == defaultRate <==> !isInsuranceEnabled && !isSalaryClient
  {
    var insured := if isInsuranceEnabled then defaultRate - 3.0 else defaultRate;
    if isSalaryClient then insured - 1.0 else insured
  }

  /** The insurance premium added to an insured offer: ten percent of the amount, and
      nothing without insurance. */
  function Insurance(requestedAmount: real, isInsuranceEnabled: bool): real {
    if isInsuranceEnabled then requestedAmount * 0.1 else 0.0
  }

  /** The premium is a tenth of the amount when insured and nothing otherwise; it lies
      between zero and the amount for a non-negative amount, and is zero exactly when
      there is no insurance or nothing to insure. */
  lemma InsuranceShare(requestedAmount: real, isInsuranceEnabled: bool)
    ensures var premium := Insurance(requestedAmount, isInsuranceEnabled);
      && (isInsuranceEnabled ==> premium == requestedAmount / 10.0)
      && (!isInsuranceEnabled ==> premium == 0.0)
      && (requestedAmount >= 0.0 ==> 0.0 <= premium <= requestedAmount)
      && (premium == 0.0 <==> !isInsuranceEnabled || requestedAmount == 0.0)
  {
  }

  /** The total amount of an offer: the payments over the whole term, plus the
      premium when insured. */
  function TotalAmount(monthlyPayment: real, term: int, requestedAmount: real, isInsuranceEnabled: bool): real {
    monthlyPayment * term as real + Insurance(requestedAmount, isInsuranceEnabled)
  }

  /** One offer; absent exactly when the annuity computation throws. */
  function CreateLoanOffer(applicationId: int, requestedAmount: real, term: int, isInsuranceEnabled: bool,
                           isSalaryClient: bool, defaultRate: real): (r: Option<LoanOffer>)
    ensures r.Some? <==> AnnuityDefined(OfferRate(defaultRate, isInsuranceEnabled, isSalaryClient), term)
    ensures r.Some? ==>
      && r.value.applicationId == applicationId
      && r.value.requestedAmount == requestedAmount
      && r.value.term == term
      && r.value.rate == OfferRate(defaultRate, isInsuranceEnabled, isSalaryClient)
      && r.value.isInsuranceEnabled == isInsuranceEnabled
      && r.value.isSalaryClient == isSalaryClient
      && Some(r.value.monthlyPayment) == MonthlyPayment(requestedAmount, r.value.rate, term)
      && r.value.totalAmount == TotalAmount(r.value.monthlyPayment, term, requestedAmount, isInsuranceEnabled)
  {
    var rate := OfferRate(defaultRate, isInsuranceEnabled, isSalaryClient);
    match MonthlyPayment(requestedAmount, rate, term)
    case None => None
    case Some(monthlyPayment) =>
      var totalAmount := TotalAmount(monthlyPayment, term, requestedAmount, isInsuranceEnabled);
      Some(LoanOffer(applicationId, requestedAmount, totalAmount, term, monthlyPayment, rate,
                     isInsuranceEnabled, isSalaryClient))
  }

  /** How the total of offer `o` relates to its payments: the difference is a tenth of
      the amount when insured and nothing otherwise; the total is at least the payments
      for a non-negative amount, and equal to them exactly when there is no insurance
      or nothing to insure. */
  predicate TotalAddsPremium(o: LoanOffer, requestedAmount: real, term: int) {
    && o.totalAmount - o.monthlyPayment * term as real == (if o.isInsuranceEnabled then requestedAmount / 10.0 else 0.0)
    && (requestedAmount >= 0.0 ==> o.totalAmount >= o.monthlyPayment * term as real)
    && (o.totalAmount == o.monthlyPayment * term as real <==> !o.isInsuranceEnabled || requestedAmount == 0.0)
  }

  /** An offer whose total is its payments plus the premium has its total related to
      its payments as `TotalAddsPremium` says. */
  lemma OfferTotalFor(o: LoanOffer, requestedAmount: real, term: int)
    requires o.totalAmount == TotalAmount(o.monthlyPayment, term, requestedAmount, o.isInsuranceEnabled)
    ensures TotalAddsPremium(o, requestedAmount, term)
  {
    InsuranceShare(requestedAmount, o.isInsuranceEnabled);
  }

  /** The total of a single offer is its payments plus, when insured, a tenth of the
      amount. */
  lemma OfferTotal(applicationId: int, requestedAmount: real, term: int, isInsuranceEnabled: bool,
                   isSalaryClient: bool, defaultRate: real)
    requires CreateLoanOffer(applicationId, requestedAmount, term, isInsuranceEnabled, isSalaryClient, defaultRate).Some?
    ensures TotalAddsPremium(CreateLoanOffer(applicationId, requestedAmount, term, isInsuranceEnabled, isSalaryClient,
                                             defaultRate).value, requestedAmount, term)
  {
    var o := CreateLoanOffer(applicationId, requestedAmount, term, isInsuranceEnabled, isSalaryClient, defaultRate).value;
    OfferTotalFor(o, requestedAmount, term);
  }

  /** The four (insurance, salary client) combinations, in the order the offers are listed. */
  const OfferFlags: seq<(bool, bool)> := [(true, true), (true, false), (false, true), (false, false)]

  /** Every offer of the listed combinations can be computed. */
  predicate AllOffersDefined(defaultRate: real, term: int, flags: seq<(bool, bool)>) {
    forall k :: 0 <= k < |flags| ==> AnnuityDefined(OfferRate(defaultRate, flags[k].0, flags[k].1), term)
  }

  /** The offer `o` is the one for the amount, the term and the combination `flags`. */
  predicate IsOfferFor(o: LoanOffer, applicationId: int, requestedAmount: real, term: int,
                       defaultRate: real, flags: (bool, bool)) {
    && o.applicationId == applicationId
    && o.requestedAmount == requestedAmount
    && o.term == term
    && (o.isInsuranceEnabled, o.isSalaryClient) == flags
    && o.rate == OfferRate(defaultRate, flags.0, flags.1)
    && Some(o.monthlyPayment) == MonthlyPayment(requestedAmount, o.rate, term)
    && o.totalAmount == TotalAmount(o.monthlyPayment, term, requestedAmount, flags.0)
  }

  /** One offer per listed combination, in list order; absent when any of them throws. */
  function BuildOffers(applicationId: int, requestedAmount: real, term: int, defaultRate: real,
                       flags: seq<(bool, bool)>): (r: Option<seq<LoanOffer>>)
    ensures r.Some? <==> AllOffersDefined(defaultRate, term, flags)
    ensures r.Some? ==> |r.value| == |flags|
    ensures r.Some? ==>
      forall k :: 0 <= k < |flags| ==> IsOfferFor(r.value[k], applicationId, requestedAmount, term, defaultRate, flags[k])
  {
    if |flags| == 0 then Some([])
    else
      var offer := CreateLoanOffer(applicationId, requestedAmount, term, flags[0].0, flags[0].1, defaultRate);
      var rest := BuildOffers(applicationId, requestedAmount, term, defaultRate, flags[1..]);
      assert forall k :: 1 <= k < |flags| ==> flags[k] == flags[1..][k - 1];
      if offer.Some? && rest.Some? then
        assert IsOfferFor(offer.value, applicationId, requestedAmount, term, defaultRate, flags[0]);
        Some([offer.value] + rest.value)
      else None
  }

  /** The offer stage: prescoring first, then the four offers in the fixed order. */
  function GetLoanOffers(request: LoanApplicationRequest, basic: BasicConfiguration,
                         prescoring: PrescoringConfiguration, today: Date): (r: Outcome<seq<LoanOffer>>)
    ensures r.Rejected? <==> !PassesPrescoring(request, prescoring, today)
    ensures r.Rejected? ==> r.reasons == Prescoring(request, prescoring, today) && r.reasons != []
    ensures r.ArithmeticError? <==>
      PassesPrescoring(request, prescoring, today) && !AllOffersDefined(basic.defaultRate, request.term, OfferFlags)
    ensures r.Success? ==> |r.value| == 4
    ensures r.Success? ==> forall k :: 0 <= k < 4 ==>
      IsOfferFor(r.value[k], basic.applicationId, request.amount, request.term, basic.defaultRate, OfferFlags[k])
  {
    var reasons := Prescoring(request, prescoring, today);
    if reasons != [] then Rejected(reasons)
    else
      match BuildOffers(basic.applicationId, request.amount, request.term, basic.defaultRate, OfferFlags)
      case Some(offers) => Success(offers)
      case None => ArithmeticError
  }

  /** The offers come cheapest first: each rate is strictly above the one before,
      the last is the default rate and the first is four points below it. */
  lemma OfferRatesIncrease(request: LoanApplicationRequest, basic: BasicConfiguration,
                           prescoring: PrescoringConfiguration, today: Date)
    requires GetLoanOffers(request, basic, prescoring, today).Success?
    ensures var offers := GetLoanOffers(request, basic, prescoring, today).value;
      && (forall i, j :: 0 <= i < j < |offers| ==> offers[i].rate < offers[j].rate)
      && offers[0].rate == basic.defaultRate - 4.0
      && offers[3].rate == basic.defaultRate
  {
    var offers := GetLoanOffers(request, basic, prescoring, today).value;
    var d := basic.defaultRate;
    assert IsOfferFor(offers[0], basic.applicationId, request.amount, request.term, d, OfferFlags[0]);
    assert IsOfferFor(offers[1], basic.applicationId, request.amount, request.term, d, OfferFlags[1]);
    assert IsOfferFor(offers[2], basic.applicationId, request.amount, request.term, d, OfferFlags[2]);
    assert IsOfferFor(offers[3], basic.applicationId, request.amount, request.term, d, OfferFlags[3]);
    assert offers[0].rate == d - 4.0 && offers[1].rate == d - 3.0;
    assert offers[2].rate == d - 1.0 && offers[3].rate == d;
    forall i, j | 0 <= i < j < |offers|
      ensures offers[i].rate < offers[j].rate
    {
      assert i == 0 || i == 1 || i == 2;
      assert j == 1 || j == 2 || j == 3;
    }
  }

  /** The totals of the four offers: the two insured offers add a tenth of the amount
      to their payments, the two others are their payments alone. */
  lemma OfferTotals(request: LoanApplicationRequest, basic: BasicConfiguration,
                    prescoring: PrescoringConfiguration, today: Date)
    requires GetLoanOffers(request, basic, prescoring, today).Success?
    ensures var offers := GetLoanOffers(request, basic, prescoring, today).value;
      forall k :: 0 <= k < |offers| ==> TotalAddsPremium(offers[k], request.amount, request.term)
  {
    var offers := GetLoanOffers(request, basic, prescoring, today).value;
    forall k | 0 <= k < |offers|
      ensures TotalAddsPremium(offers[k], request.amount, request.term)
    {
      assert IsOfferFor(offers[k], basic.applicationId, request.amount, request.term, basic.defaultRate, OfferFlags[k]);
      OfferTotalFor(offers[k], request.amount, request.term);
    }
  }

  /** A request that passes prescoring gets its four offers whenever the cheapest
      rate is at least one percent and the term is in `1..MaxTerm`. */
  lemma OffersExist(request: LoanApplicationRequest, basic: BasicConfiguration,
                    prescoring: PrescoringConfiguration, today: Date)
    requires PassesPrescoring(request, prescoring, today)
    requires basic.defaultRate >= 5.0 && 1 <= request.term <= MaxTerm
    ensures GetLoanOffers(request, basic, prescoring, today).Success?
  {
    forall k | 0 <= k < |OfferFlags|
      ensures AnnuityDefined(OfferRate(basic.defaultRate, OfferFlags[k].0, OfferFlags[k].1), request.term)
    {
      var rate := OfferRate(basic.defaultRate, OfferFlags[k].0, OfferFlags[k].1);
      MonthlyRatePositive(rate);
      AnnuityDefinedIff(rate, request.term);
    }
  }
}
