/**
 The four request scenarios of the service's tests, with "today" and the
 configuration left open as far as the outcome allows.
 */
module Scenarios {
  import opened Calendar
  import opened Patterns
  import opened Domain
  import opened Annuity
  import opened Validation
  import opened Offers
  import opened Credit

  /** A valid application: 100000 over 6 months, born 2002-12-22. */
  const ValidApplication := LoanApplicationRequest(100000.0, 6, "Anton", "Gusev", "Olegovich",
    "cde120502@yandex.ru", LocalDate(2002, 12, 22), "1234", "124562")

  /** An application failing every check: too small, too short, digits in the names,
      no `@` in the email, too young, one digit too many in both passport fields. */
  const InvalidApplication := LoanApplicationRequest(100.0, 5, "Anton1", "Gusev3", "Olegovich2",
    "cde120502yandex.ru", LocalDate(2010, 12, 22), "12342", "1245624")

  lemma ValidEmailParts()
    ensures IsEmailRun("cde120502", 2, 50) && IsEmailRun("yandex.ru", 2, 20)
  {
  }

  /** The valid email splits at its only `@` into two runs of the class. */
  lemma ValidEmail()
    ensures IsEmail("cde120502@yandex.ru")
  {
    var local, domain := "cde120502", "yandex.ru";
    var s := local + "@" + domain;
    assert s == "cde120502@yandex.ru";
    ValidEmailParts();
    assert s[..9] == local;
    assert !IsEmailChar('@');
    assert '@' !in local;
    IndexOfFirst(s, '@', 9);
    assert s[10..] == domain;
  }

  /** The valid application passes every check for an applicant 18 or older on `today`. */
  lemma ValidApplicationChecks(prescoring: PrescoringConfiguration, today: Date)
    requires prescoring.minRequestedAmount <= 100000.0 && prescoring.minTerm <= 6 && prescoring.minAge == 18
    requires NotAfter(LocalDate(2020, 12, 22), today)
    ensures PassesPrescoring(ValidApplication, prescoring, today)
  {
    ValidNames();
    ValidEmail();
    AgeAtLeastIff(ValidApplication.birthdate, today, 18);
  }

  lemma ValidNames()
    ensures IsName(ValidApplication.firstName) && IsName(ValidApplication.lastName) && IsName(ValidApplication.middleName)
    ensures IsDigits(ValidApplication.passportSeries, 4) && IsDigits(ValidApplication.passportNumber, 6)
  {
  }

  /** The valid application gets its four offers (at a default rate of at least five percent). */
  lemma ValidApplicationGetsFourOffers(basic: BasicConfiguration, prescoring: PrescoringConfiguration, today: Date)
    requires prescoring.minRequestedAmount <= 100000.0 && prescoring.minTerm <= 6 && prescoring.minAge == 18
    requires NotAfter(LocalDate(2020, 12, 22), today)
    requires basic.defaultRate >= 5.0
    ensures var r := GetLoanOffers(ValidApplication, basic, prescoring, today);
      r.Success? && |r.value| == 4
  {
    ValidApplicationChecks(prescoring, today);
    OffersExist(ValidApplication, basic, prescoring, today);
  }

  /** Without an `@` the email cannot match. */
  lemma InvalidEmail()
    ensures !IsEmail("cde120502yandex.ru")
  {
    var s := "cde120502yandex.ru";
    assert forall i :: 0 <= i < |s| ==> IsEmailChar(s[i]);
    assert '@' !in s;
  }

  /** The invalid application, before its applicant turns 18, is rejected with all nine
      reasons in check order. */
  lemma InvalidApplicationGetsNineReasons(basic: BasicConfiguration, prescoring: PrescoringConfiguration, today: Date)
    requires prescoring.minRequestedAmount > 100.0 && prescoring.minTerm > 5 && prescoring.minAge == 18
    requires !NotAfter(LocalDate(2028, 12, 22), today)
    ensures GetLoanOffers(InvalidApplication, basic, prescoring, today) == Rejected(PrescoringReasons)
  {
    var request := InvalidApplication;
    assert !IsName(request.firstName) by { assert !IsLatinLetter(request.firstName[5]); }
    assert !IsName(request.lastName) by { assert !IsLatinLetter(request.lastName[5]); }
    assert !IsName(request.middleName) by { assert !IsLatinLetter(request.middleName[9]); }
    InvalidEmail();
    AgeAtLeastIff(request.birthdate, today, 18);
    PrescoringAllFail(request, prescoring, today);
  }

  /** Scoring thresholds as the failure messages describe them. */
  predicate StandardScoring(scoring: ScoringConfiguration) {
    && scoring.loanToSalaryRatio == 20.0
    && scoring.minAge == 20 && scoring.maxAge == 60
    && scoring.minWorkExperienceTotal == 12 && scoring.minWorkExperienceCurrent == 3
  }

  function ScoringRequest(employment: Employment, birthdate: Date): ScoringData {
    ScoringData(100000.0, 12, "Anton", "Gusev", "Olegovich", Male, birthdate, "9123", "124568",
      LocalDate(2002, 12, 5), "abc", Married, 12, employment, "1246797867564534233", true, true)
  }

  /** A self-employed top manager, married, twelve dependents, born 2002-12-05. */
  const GoodScoringRequest := ScoringRequest(
    Employment(SelfEmployed, "124578", 200000.0, TopManager, 12, 12), LocalDate(2002, 12, 5))

  /** Unemployed, earning 200, with 11 and 2 months of experience, born 2010-12-05. */
  const BadScoringRequest := ScoringRequest(
    Employment(Unemployed, "124578", 200.0, TopManager, 11, 2), LocalDate(2010, 12, 5))

  /** Between the applicant's 20th and 30th birthdays the good request gets a twelve-month
      credit at five points below the default rate: +1 self-employed, -4 top manager,
      -3 married, +1 for dependents, nothing for a man under 30. A default rate of at
      least six percent keeps that rate at one percent or more, so the annuity exists. */
  lemma GoodRequestGetsCredit(basic: BasicConfiguration, scoring: ScoringConfiguration, today: Date)
    requires StandardScoring(scoring) && basic.defaultRate >= 6.0
    requires NotAfter(LocalDate(2022, 12, 5), today) && !NotAfter(LocalDate(2032, 12, 5), today)
    ensures var r := CalculationLoanParams(GoodScoringRequest, basic, scoring, today);
      && r.Success?
      && |r.value.paymentSchedule| == 12
      && r.value.rate == basic.defaultRate - 5.0
  {
    var request := GoodScoringRequest;
    AgeAtLeastIff(request.birthdate, today, 20);
    AgeAtLeastIff(request.birthdate, today, 30);
    var rate := CreditRate(basic.defaultRate, request, today);
    assert rate == basic.defaultRate - 5.0;
    MonthlyRatePositive(rate);
    AnnuityDefinedIff(rate, request.term);
  }

  /** Before the applicant's 20th birthday the bad request is rejected with all five
      scoring reasons in check order. */
  lemma BadRequestGetsFiveReasons(basic: BasicConfiguration, scoring: ScoringConfiguration, today: Date)
    requires StandardScoring(scoring)
    requires !NotAfter(LocalDate(2030, 12, 5), today)
    ensures CalculationLoanParams(BadScoringRequest, basic, scoring, today) == Rejected(ScoringReasons)
  {
    var request := BadScoringRequest;
    AgeAtLeastIff(request.birthdate, today, 20);
    ScoringAllFail(request, scoring, today);
  }
}
