/** The record shapes of the rental-property pro forma: the input the
    calculator receives and the output it returns. Every field is a number;
    money and rates are exact rationals (`real`), the two counts the input
    declares as integers are `int`. */
module Types {

  /** A JSON value that may be `null` (or absent). */
  datatype Option<+T> = None | Some(value: T) {
    function GetOr(default: T): T {
      match this
      case Some(v) => v
      case None => default
    }
  }

  /** The `property` group of the input: five numbers. */
  datatype Property = Property(
    units: int,
    monthlyRentPerUnit: real,
    occupancyRate: real,
    annualPropertyTaxes: real,
    annualInsurance: real)

  /** The `expenses` group: the two management fields may be null, the
      other four are required. */
  datatype Expenses = Expenses(
    managementFeePercent: Option<real>,
    managementFeeFixed: Option<real>,
    maintenancePerUnitAnnual: real,
    utilitiesMonthly: real,
    hoaMonthly: real,
    otherMonthly: real)

  /** The `financing` group: four numbers. */
  datatype Financing = Financing(
    purchasePrice: real,
    downPaymentAmount: real,
    interestRate: real,
    loanTermYears: int)

  /** A complete input record: every required field is present. */
  datatype ProFormaInput = ProFormaInput(
    property: Property,
    expenses: Expenses,
    financing: Financing)

  datatype Revenue = Revenue(
    grossPotentialRent: real,
    vacancyLoss: real,
    effectiveGrossIncome: real)

  datatype ExpenseBreakdown = ExpenseBreakdown(
    management: real,
    maintenance: real,
    propertyTaxes: real,
    insurance: real,
    utilities: real,
    hoa: real,
    other: real,
    totalOperatingExpenses: real)

  datatype CashFlow = CashFlow(
    netOperatingIncome: real,
    annualDebtService: real,
    cashFlowBeforeTax: real)

  /** The three ratios. The coverage ratio is `null` when its denominator,
      the annual debt service, is zero. */
  datatype Metrics = Metrics(
    capRate: real,
    cashOnCashReturn: real,
    debtServiceCoverageRatio: Option<real>)

  /** Monthly counterparts of six annual figures. */
  datatype MonthlySummary = MonthlySummary(
    grossRent: real,
    effectiveRent: real,
    operatingExpenses: real,
    noi: real,
    debtService: real,
    cashFlow: real)

  /** The output record: five groups. */
  datatype ProFormaOutput = ProFormaOutput(
    revenue: Revenue,
    expenses: ExpenseBreakdown,
    cashFlow: CashFlow,
    metrics: Metrics,
    monthlySummary: MonthlySummary)
}
