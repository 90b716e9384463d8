/**
 The records the loan calculator reads and produces: the three configuration
 groups, the two request shapes, the enumerations they use, the offer and credit
 results, and the failure reasons of the two validators.
 */
module Domain {
  import opened Calendar

  /** Default rate (percent per year) and the application id stamped on offers. */
  datatype BasicConfiguration = BasicConfiguration(defaultRate: real, applicationId: int)

  /** Thresholds of the preliminary (offer) validation. */
  datatype PrescoringConfiguration = PrescoringConfiguration(
    minRequestedAmount: real,
    minTerm: int,
    minAge: int)

  /** Thresholds of the full (credit) validation. */
  datatype ScoringConfiguration = ScoringConfiguration(
    loanToSalaryRatio: real,
    minAge: int,
    maxAge: int,
    minWorkExperienceTotal: int,
    minWorkExperienceCurrent: int)

  datatype EmploymentStatus = Unemployed | SelfEmployed | Employed | BusinessOwner

  /** The positions the rate rules distinguish; every other position is `OtherPosition`. */
  datatype Position = MiddleManager | TopManager | OtherPosition

  /** The marital statuses the rate rules distinguish; every other one is `OtherMaritalStatus`. */
  datatype MaritalStatus = Married | Divorced | OtherMaritalStatus

  datatype Gender = Male | Female | NonBinary

  datatype Employment = Employment(
    employmentStatus: EmploymentStatus,
    employerINN: string,
    salary: real,
    position: Position,
    workExperienceTotal: int,
    workExperienceCurrent: int)

  /** Input of the offer calculation. */
  datatype LoanApplicationRequest = LoanApplicationRequest(
    amount: real,
    term: int,
    firstName: string,
    lastName: string,
    middleName: string,
    email: string,
    birthdate: Date,
    passportSeries: string,
    passportNumber: string)

  /** Input of the credit calculation. */
  datatype ScoringData = ScoringData(
    amount: real,
    term: int,
    firstName: string,
    lastName: string,
    middleName: string,
    gender: Gender,
    birthdate: Date,
    passportSeries: string,
    passportNumber: string,
    passportIssueDate: Date,
    passportIssueBranch: string,
    maritalStatus: MaritalStatus,
    dependentAmount: int,
    employment: Employment,
    account: string,
    isInsuranceEnabled: bool,
    isSalaryClient: bool)

  /** One validation failure: the offending field and a message. */
  datatype Reason = Reason(nameField: string, description: string)

  /** The result of a calculation: the value, the ordered failures of a validator,
      or the ArithmeticException that BigDecimal raises (division by zero, or a
      power whose exponent, scale or magnitude is out of range). */
  datatype Outcome<T> = Success(value: T) | Rejected(reasons: seq<Reason>) | ArithmeticError

  /** A value one level below `Outcome`: absent when BigDecimal would throw. */
  datatype Option<T> = None | Some(value: T)

  datatype LoanOffer = LoanOffer(
    applicationId: int,
    requestedAmount: real,
    totalAmount: real,
    term: int,
    monthlyPayment: real,
    rate: real,
    isInsuranceEnabled: bool,
    isSalaryClient: bool)

  /** One month of the repayment plan. */
  datatype PaymentScheduleElement = PaymentScheduleElement(
    number: int,
    date: Date,
    totalPayment: real,
    interestPayment: real,
    debtPayment: real,
    remainingDebt: real)

  datatype Credit = Credit(
    amount: real,
    term: int,
    monthlyPayment: real,
    rate: real,
    psk: real,
    isInsuranceEnabled: bool,
    isSalaryClient: bool,
    paymentSchedule: seq<PaymentScheduleElement>)
}
