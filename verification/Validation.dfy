/**
 The two validators. Each evaluates all of its checks, never stopping at the
 first failure, and reports a reason for every failed check in a fixed order;
 the request is rejected exactly when that list is non-empty.
 */
module Validation {
  import opened Calendar
  import opened Patterns
  import opened Domain

  /** `sub` is `full` with some elements left out, order kept. */
  predicate IsSubsequence<T(==)>(sub: seq<T>, full: seq<T>) {
    |sub| == 0 ||
    (|full| > 0 && ((sub[0] == full[0] && IsSubsequence(sub[1..], full[1..])) || IsSubsequence(sub, full[1..])))
  }

  predicate Distinct<T(==)>(s: seq<T>) {
    forall i, j :: 0 <= i < j < |s| ==> s[i] != s[j]
  }

  /** Runs every check in order and appends the matching reason for each one that failed. */
  function Collect(passed: seq<bool>, reasons: seq<Reason>): (r: seq<Reason>)
    requires |passed| == |reasons|
    ensures |r| <= |reasons|
    ensures r == [] <==> forall k :: 0 <= k < |passed| ==> passed[k]
    ensures forall k :: 0 <= k < |passed| && !passed[k] ==> reasons[k] in r
  {
    if |passed| == 0 then []
    else
      var rest := Collect(passed[1..], reasons[1..]);
      assert forall k :: 1 <= k < |passed| ==> passed[k] == passed[1..][k - 1] && reasons[k] == reasons[1..][k - 1];
      if passed[0] then rest else [reasons[0]] + rest
  }

  /** The reported reasons keep the order of the checks. */
  lemma {:induction false} CollectKeepsOrder(passed: seq<bool>, reasons: seq<Reason>)
    requires |passed| == |reasons|
    ensures IsSubsequence(Collect(passed, reasons), reasons)
    decreases |passed|
  {
    if |passed| > 0 {
      var rest := Collect(passed[1..], reasons[1..]);
      CollectKeepsOrder(passed[1..], reasons[1..]);
      if !passed[0] {
        var r := [reasons[0]] + rest;
        assert Collect(passed, reasons) == r;
        assert r[0] == reasons[0] && r[1..] == rest;
      }
    }
  }

  /** When every check fails, every reason is reported, in order. */
  lemma {:induction false} CollectAllFailed(passed: seq<bool>, reasons: seq<Reason>)
    requires |passed| == |reasons|
    requires true !in passed
    ensures Collect(passed, reasons) == reasons
    decreases |passed|
  {
    if |passed| > 0 {
      var tail, others := passed[1..], reasons[1..];
      assert true !in tail;
      CollectAllFailed(tail, others);
      CollectFailedHead(passed, reasons);
      assert reasons == [reasons[0]] + others;
    }
  }

  /** A failed first check puts its reason in front of the rest. */
  lemma CollectFailedHead(passed: seq<bool>, reasons: seq<Reason>)
    requires |passed| == |reasons| && |passed| > 0 && !passed[0]
    ensures Collect(passed, reasons) == [reasons[0]] + Collect(passed[1..], reasons[1..])
  {
  }

  /** Only failed checks contribute: every reported reason is the reason of a failed check. */
  lemma {:induction false} CollectOnlyFailures(passed: seq<bool>, reasons: seq<Reason>)
    requires |passed| == |reasons|
    ensures forall x :: x in Collect(passed, reasons) ==> exists k :: 0 <= k < |passed| && !passed[k] && reasons[k] == x
    decreases |passed|
  {
    if |passed| > 0 {
      var rest := Collect(passed[1..], reasons[1..]);
      CollectOnlyFailures(passed[1..], reasons[1..]);
      forall x | x in Collect(passed, reasons)
        ensures exists k :: 0 <= k < |passed| && !passed[k] && reasons[k] == x
      {
        if x in rest {
          var j :| 0 <= j < |passed| - 1 && !passed[1..][j] && reasons[1..][j] == x;
          assert !passed[j + 1] && reasons[j + 1] == x;
        } else {
          assert !passed[0] && reasons[0] == x;
        }
      }
    }
  }

  /** With distinct reasons, a reason is reported exactly when its own check failed. */
  lemma {:induction false} CollectReportsExactlyFailures(passed: seq<bool>, reasons: seq<Reason>, k: int)
    requires |passed| == |reasons| && Distinct(reasons) && 0 <= k < |reasons|
    ensures reasons[k] in Collect(passed, reasons) <==> !passed[k]
    decreases |passed|
  {
    var rest := Collect(passed[1..], reasons[1..]);
    assert Collect(passed, reasons) == if passed[0] then rest else [reasons[0]] + rest;
    if k == 0 {
      CollectOnlyFailures(passed[1..], reasons[1..]);
      assert forall x :: x in rest ==> x in reasons[1..];
      assert reasons[0] !in reasons[1..];
    } else {
      assert Distinct(reasons[1..]);
      assert reasons[k] == reasons[1..][k - 1] && passed[k] == passed[1..][k - 1];
      CollectReportsExactlyFailures(passed[1..], reasons[1..], k - 1);
    }
  }

  /** The same, for every reason at once. */
  lemma CollectReportsFailures(passed: seq<bool>, reasons: seq<Reason>)
    requires |passed| == |reasons| && Distinct(reasons)
    ensures forall k :: 0 <= k < |reasons| ==> (reasons[k] in Collect(passed, reasons) <==> !passed[k])
  {
    forall k | 0 <= k < |reasons|
      ensures reasons[k] in Collect(passed, reasons) <==> !passed[k]
    {
      CollectReportsExactlyFailures(passed, reasons, k);
    }
  }

  // ---- prescoring (offer stage) ----

  const FirstNameReason := Reason("firstName", "Invalid first name. (from 2 to 30 Latin letters)")
  const LastNameReason := Reason("lastName", "Invalid last name. (from 2 to 30 Latin letters)")
  const MiddleNameReason := Reason("middleName", "Invalid middle name. (from 2 to 30 Latin letters)")
  const AmountReason := Reason("amount", "Invalid amount. (a real number greater than or equal to 10000)")
  const TermReason := Reason("term", "Invalid term. (an integer greater than or equal to 6)")
  const BirthdateReason := Reason("birthdate", "Invalid birthdate. (in the format yyyy-mm-dd, no later than 18 years from the current day)")
  const EmailReason := Reason("email", "Invalid email.")
  const PassportSeriesReason := Reason("passportSeries", "Invalid passport series. (4 digits)")
  const PassportNumberReason := Reason("passportNumber", "Invalid passport number. (6 digits)")

  /** Every prescoring reason, in the order the checks run. */
  const PrescoringReasons: seq<Reason> := [
    FirstNameReason, LastNameReason, MiddleNameReason, AmountReason, TermReason,
    BirthdateReason, EmailReason, PassportSeriesReason, PassportNumberReason]

  lemma PrescoringReasonsDistinct()
    ensures Distinct(PrescoringReasons)
  {
  }

  /** The outcome of each prescoring check, `true` meaning passed. */
  function PrescoringChecks(req: LoanApplicationRequest, cfg: PrescoringConfiguration, today: Date): seq<bool> {
    [ IsName(req.firstName),
      IsName(req.lastName),
      IsName(req.middleName),
      req.amount >= cfg.minRequestedAmount,
      req.term >= cfg.minTerm,
      Age(req.birthdate, today) >= cfg.minAge,
      IsEmail(req.email),
      IsDigits(req.passportSeries, 4),
      IsDigits(req.passportNumber, 6) ]
  }

  /** All nine preliminary checks hold. */
  predicate PassesPrescoring(req: LoanApplicationRequest, cfg: PrescoringConfiguration, today: Date) {
    && IsName(req.firstName) && IsName(req.lastName) && IsName(req.middleName)
    && req.amount >= cfg.minRequestedAmount
    && req.term >= cfg.minTerm
    && Age(req.birthdate, today) >= cfg.minAge
    && IsEmail(req.email)
    && IsDigits(req.passportSeries, 4) && IsDigits(req.passportNumber, 6)
  }

  /** The reasons the prescoring step rejects a request with; empty means accepted. */
  function Prescoring(req: LoanApplicationRequest, cfg: PrescoringConfiguration, today: Date): (r: seq<Reason>)
    ensures r == [] <==> PassesPrescoring(req, cfg, today)
    ensures forall k :: 0 <= k < |PrescoringReasons| ==> (PrescoringReasons[k] in r <==> !PrescoringChecks(req, cfg, today)[k])
    ensures IsSubsequence(r, PrescoringReasons)
  {
    var checks := PrescoringChecks(req, cfg, today);
    PrescoringReasonsDistinct();
    CollectReportsFailures(checks, PrescoringReasons);
    PrescoringChecksAllPass(req, cfg, today);
    CollectKeepsOrder(checks, PrescoringReasons);
    Collect(checks, PrescoringReasons)
  }

  /** The nine checks all pass exactly when the request passes prescoring. */
  lemma PrescoringChecksAllPass(req: LoanApplicationRequest, cfg: PrescoringConfiguration, today: Date)
    ensures var checks := PrescoringChecks(req, cfg, today);
      (forall k :: 0 <= k < |checks| ==> checks[k]) <==> PassesPrescoring(req, cfg, today)
  {
    var checks := PrescoringChecks(req, cfg, today);
    assert (forall k :: 0 <= k < |checks| ==> checks[k]) <==>
      checks[0] && checks[1] && checks[2] && checks[3] && checks[4] && checks[5] && checks[6] && checks[7] && checks[8];
  }

  /** A request failing every check gets all nine reasons, in order. */
  lemma PrescoringAllFail(req: LoanApplicationRequest, cfg: PrescoringConfiguration, today: Date)
    requires !IsName(req.firstName) && !IsName(req.lastName) && !IsName(req.middleName)
    requires req.amount < cfg.minRequestedAmount && req.term < cfg.minTerm
    requires Age(req.birthdate, today) < cfg.minAge
    requires !IsEmail(req.email) && !IsDigits(req.passportSeries, 4) && !IsDigits(req.passportNumber, 6)
    ensures Prescoring(req, cfg, today) == PrescoringReasons
    ensures |Prescoring(req, cfg, today)| == 9
  {
    var checks := PrescoringChecks(req, cfg, today);
    assert !checks[0] && !checks[1] && !checks[2] && !checks[3] && !checks[4] && !checks[5] && !checks[6] && !checks[7] && !checks[8];
    assert true !in checks;
    CollectAllFailed(checks, PrescoringReasons);
  }

  /** The amount, term and age bounds are inclusive; the age check passes from the
      applicant's `minAge`-th birthday on, and fails the day before. */
  lemma PrescoringBoundaries(req: LoanApplicationRequest, cfg: PrescoringConfiguration, today: Date)
    requires cfg.minAge >= 1
    ensures AmountReason !in Prescoring(req, cfg, today) <==> req.amount >= cfg.minRequestedAmount
    ensures TermReason !in Prescoring(req, cfg, today) <==> req.term >= cfg.minTerm
    ensures BirthdateReason !in Prescoring(req, cfg, today) <==> NotAfter(Anniversary(req.birthdate, cfg.minAge), today)
  {
    assert PrescoringReasons[3] == AmountReason;
    assert PrescoringReasons[4] == TermReason;
    assert PrescoringReasons[5] == BirthdateReason;
    AgeAtLeastIff(req.birthdate, today, cfg.minAge);
  }

  // ---- scoring (credit stage) ----

  const EmploymentStatusReason := Reason("employmentStatus", "You're employment status is UNEMPLOYED.")
  const SalaryReason := Reason("amount/salary", "The loan amount is more than 20 salaries.")
  const AgeReason := Reason("birthdate", "Age less than 20 or more than 60 years.")
  const WorkExperienceTotalReason := Reason("workExperienceTotal", "Total experience less than 12 months.")
  const WorkExperienceCurrentReason := Reason("workExperienceCurrent", "Current experience less than 3 months.")

  /** Every scoring reason, in the order the checks run. */
  const ScoringReasons: seq<Reason> := [
    EmploymentStatusReason, SalaryReason, AgeReason, WorkExperienceTotalReason, WorkExperienceCurrentReason]

  lemma ScoringReasonsDistinct()
    ensures Distinct(ScoringReasons)
  {
  }

  /** The outcome of each scoring check, `true` meaning passed; each is the negation of the service's failure test. */
  function ScoringChecks(req: ScoringData, cfg: ScoringConfiguration, today: Date): seq<bool> {
    var employment := req.employment;
    var age := Age(req.birthdate, today);
    [ !(employment.employmentStatus == Unemployed),
      !(employment.salary * cfg.loanToSalaryRatio < req.amount),
      !(age < cfg.minAge || age > cfg.maxAge),
      !(employment.workExperienceTotal < cfg.minWorkExperienceTotal),
      !(employment.workExperienceCurrent <= cfg.minWorkExperienceCurrent) ]
  }

  /** The reasons the scoring step rejects a request with; empty means accepted.
      The age range is inclusive, the amount may equal the salary limit, total
      experience may equal its minimum, current experience must exceed its minimum. */
  function Scoring(req: ScoringData, cfg: ScoringConfiguration, today: Date): (r: seq<Reason>)
    ensures r == [] <==>
      && req.employment.employmentStatus != Unemployed
      && req.amount <= req.employment.salary * cfg.loanToSalaryRatio
      && cfg.minAge <= Age(req.birthdate, today) <= cfg.maxAge
      && req.employment.workExperienceTotal >= cfg.minWorkExperienceTotal
      && req.employment.workExperienceCurrent > cfg.minWorkExperienceCurrent
    ensures forall k :: 0 <= k < |ScoringReasons| ==> (ScoringReasons[k] in r <==> !ScoringChecks(req, cfg, today)[k])
    ensures IsSubsequence(r, ScoringReasons)
  {
    var checks := ScoringChecks(req, cfg, today);
    ScoringReasonsDistinct();
    CollectReportsFailures(checks, ScoringReasons);
    assert (forall k :: 0 <= k < |checks| ==> checks[k]) <==>
      checks[0] && checks[1] && checks[2] && checks[3] && checks[4];
    CollectKeepsOrder(checks, ScoringReasons);
    Collect(checks, ScoringReasons)
  }

  /** A request failing every scoring check gets all five reasons, in order. */
  lemma ScoringAllFail(req: ScoringData, cfg: ScoringConfiguration, today: Date)
    requires req.employment.employmentStatus == Unemployed
    requires req.employment.salary * cfg.loanToSalaryRatio < req.amount
    requires Age(req.birthdate, today) < cfg.minAge || Age(req.birthdate, today) > cfg.maxAge
    requires req.employment.workExperienceTotal < cfg.minWorkExperienceTotal
    requires req.employment.workExperienceCurrent <= cfg.minWorkExperienceCurrent
    ensures Scoring(req, cfg, today) == ScoringReasons
    ensures |Scoring(req, cfg, today)| == 5
  {
    var checks := ScoringChecks(req, cfg, today);
    assert !checks[0] && !checks[1] && !checks[2] && !checks[3] && !checks[4];
    assert true !in checks;
    CollectAllFailed(checks, ScoringReasons);
  }
}
