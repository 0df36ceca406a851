/** The pro forma calculation: revenue, operating expenses, net operating
    income, debt service, cash flow and the three ratios, each defined once
    from the quantities before it. Divisions are guarded: a zero denominator
    (where floating point would give NaN or Infinity) is an explicit case. */
module Calculator {
  import opened Types
  import Validator

  /** `x` raised to the `n`-th power. */
  function Pow(x: real, n: nat): real
  {
    if n == 0 then 1.0 else x * Pow(x, n - 1)
  }

  /** A power of a base of at least one is at least one, and exceeds one
      when the base does and the exponent is positive. */
  lemma {:induction false} PowAtLeastOne(x: real, n: nat)
    requires x >= 1.0
    ensures Pow(x, n) >= 1.0
    ensures x > 1.0 && n > 0 ==> Pow(x, n) > 1.0
  {
    if n > 0 {
      PowAtLeastOne(x, n - 1);
      var p := Pow(x, n - 1);
      assert x * p - p == (x - 1.0) * p;
      assert (x - 1.0) * p >= 0.0;
      assert x > 1.0 ==> (x - 1.0) * p > 0.0;
    }
  }

  /** `a / b`, or nothing when the denominator is zero. */
  function Quotient(a: real, b: real): (q: Option<real>)
    ensures q.None? <==> b == 0.0
    ensures q.Some? ==> q.value * b == a
  {
    if b == 0.0 then None else Some(a / b)
  }

  /** The amortised monthly payment as the formula reads,
      `loan * (r * (1 + r)^n) / ((1 + r)^n - 1)`, with a zero denominator
      turned into 0 by the NaN/Infinity rule. At `r == 0` this is the case
      0/0, so the payment is 0 whatever the loan. */
  function MonthlyPaymentAsWritten(loan: real, monthlyRate: real, numPayments: nat): real
  {
    var growth := Pow(1.0 + monthlyRate, numPayments);
    Quotient(loan * (monthlyRate * growth), growth - 1.0).GetOr(0.0)
  }

  /** The monthly payment the calculation uses: the amortisation formula for
      a non-zero rate, and its limit `loan / n` (straight-line repayment) for a
      zero rate. Any remaining zero denominator is turned into 0. */
  function MonthlyPayment(loan: real, monthlyRate: real, numPayments: nat): real
  {
    if monthlyRate == 0.0 then Quotient(loan, numPayments as real).GetOr(0.0)
    else MonthlyPaymentAsWritten(loan, monthlyRate, numPayments)
  }

  /** The financing figures of one calculation. */
  datatype DebtService = DebtService(
    loanAmount: real,
    monthlyRate: real,
    numPayments: nat,
    monthlyPayment: real,
    annualDebtService: real)

  /** The raw, unrounded results of one calculation. The three ratios are
      `None` where their denominator is zero. */
  datatype Calculation = Calculation(
    revenue: Revenue,
    expenses: ExpenseBreakdown,
    cashFlow: CashFlow,
    debt: DebtService,
    capRate: Option<real>,
    cashOnCashReturn: Option<real>,
    debtServiceCoverageRatio: Option<real>)

  /** The management expense: the percentage of effective gross income when
      a percentage is given, otherwise the fixed amount. The structural check
      guarantees that one of the two is present. */
  function Management(effectiveGrossIncome: real, e: Expenses): real
  {
    match e.managementFeePercent
    case Some(percent) => effectiveGrossIncome * percent
    case None => e.managementFeeFixed.GetOr(0.0)
  }

  /** The revenue group of a property. */
  function RevenueOf(p: Property): Revenue
  {
    var grossPotentialRent := p.units as real * p.monthlyRentPerUnit * 12.0;
    var vacancyLoss := grossPotentialRent * (1.0 - p.occupancyRate);
    Revenue(grossPotentialRent, vacancyLoss, grossPotentialRent - vacancyLoss)
  }

  /** The operating expenses of a property, given its effective gross income. */
  function ExpensesOf(p: Property, e: Expenses, effectiveGrossIncome: real): ExpenseBreakdown
  {
    var management := Management(effectiveGrossIncome, e);
    var maintenance := e.maintenancePerUnitAnnual * p.units as real;
    var utilities := e.utilitiesMonthly * 12.0;
    var hoa := e.hoaMonthly * 12.0;
    var other := e.otherMonthly * 12.0;
    ExpenseBreakdown(management, maintenance, p.annualPropertyTaxes, p.annualInsurance,
                     utilities, hoa, other,
                     management + maintenance + p.annualPropertyTaxes + p.annualInsurance + utilities + hoa + other)
  }

  /** The loan, its monthly payment and the annual debt service. The loan
      term has been validated to be positive. */
  function DebtServiceOf(f: Financing): DebtService
    requires f.loanTermYears > 0
  {
    var loanAmount := f.purchasePrice - f.downPaymentAmount;
    var monthlyRate := f.interestRate / 12.0;
    var numPayments := f.loanTermYears * 12;
    var monthlyPayment := MonthlyPayment(loanAmount, monthlyRate, numPayments);
    DebtService(loanAmount, monthlyRate, numPayments, monthlyPayment, monthlyPayment * 12.0)
  }

  /** The pro forma of a validated input. */
  function Calculate(input: ProFormaInput): (c: Calculation)
    requires Validator.Valid(input)
    ensures c.cashFlow.cashFlowBeforeTax
         == c.revenue.effectiveGrossIncome - c.expenses.totalOperatingExpenses - c.cashFlow.annualDebtService
    ensures c.debt.loanAmount + input.financing.downPaymentAmount == input.financing.purchasePrice
  {
    var p, e, f := input.property, input.expenses, input.financing;
    var revenue := RevenueOf(p);
    var expenses := ExpensesOf(p, e, revenue.effectiveGrossIncome);
    var debt := DebtServiceOf(f);
    var netOperatingIncome := revenue.effectiveGrossIncome - expenses.totalOperatingExpenses;
    var cashFlowBeforeTax := netOperatingIncome - debt.annualDebtService;
    Calculation(
      revenue, expenses,
      CashFlow(netOperatingIncome, debt.annualDebtService, cashFlowBeforeTax),
      debt,
      Quotient(netOperatingIncome, f.purchasePrice),
      Quotient(cashFlowBeforeTax, f.downPaymentAmount),
      Quotient(netOperatingIncome, debt.annualDebtService))
  }

  /** For a loan of at least zero, a rate of at least zero and at least one
      payment, the monthly payment is at least zero, and zero exactly when
      nothing is borrowed. */
  lemma MonthlyPaymentSign(loan: real, monthlyRate: real, numPayments: nat)
    requires loan >= 0.0 && monthlyRate >= 0.0 && numPayments > 0
    ensures MonthlyPayment(loan, monthlyRate, numPayments) >= 0.0
    ensures MonthlyPayment(loan, monthlyRate, numPayments) == 0.0 <==> loan == 0.0
  {
    if monthlyRate > 0.0 {
      var growth := Pow(1.0 + monthlyRate, numPayments);
      PowAtLeastOne(1.0 + monthlyRate, numPayments);
      var interest := monthlyRate * growth;
      assert interest > 0.0;
      if loan > 0.0 {
        assert loan * interest > 0.0;
      }
      QuotientSign(loan * interest, growth - 1.0);
    } else {
      QuotientSign(loan, numPayments as real);
    }
  }

  /** Dividing by a positive number keeps the sign. */
  lemma QuotientSign(a: real, b: real)
    requires b > 0.0
    ensures Quotient(a, b).value >= 0.0 <==> a >= 0.0
    ensures Quotient(a, b).value == 0.0 <==> a == 0.0
  {
    var q := Quotient(a, b).value;
    if q > 0.0 {
      assert q * b > 0.0;
    } else if q < 0.0 {
      assert q * b < 0.0;
    }
  }

  /** `a * b` lies between zero and `a` when `a` is at least zero and `b`
      lies in [0, 1]. */
  lemma ScaleDown(a: real, b: real)
    requires a >= 0.0 && 0.0 <= b <= 1.0
    ensures 0.0 <= a * b <= a
  {
    assert a * (1.0 - b) >= 0.0;
  }

  /** Revenue: the vacancy loss lies between zero and the gross potential
      rent, so the effective gross income does too, and the effective gross
      income is the occupied share of twelve months' rent on every unit. */
  lemma RevenueBounds(p: Property)
    requires p.units > 0 && p.monthlyRentPerUnit >= 0.0 && 0.0 <= p.occupancyRate <= 1.0
    ensures var r := RevenueOf(p);
      && r.grossPotentialRent >= 0.0
      && 0.0 <= r.vacancyLoss <= r.grossPotentialRent
      && 0.0 <= r.effectiveGrossIncome <= r.grossPotentialRent
      && r.effectiveGrossIncome == r.grossPotentialRent - r.vacancyLoss
      && r.effectiveGrossIncome == p.units as real * p.monthlyRentPerUnit * 12.0 * p.occupancyRate
  {
    var gpr := p.units as real * p.monthlyRentPerUnit * 12.0;
    assert gpr >= 0.0 by {
      assert p.units as real * p.monthlyRentPerUnit >= 0.0;
    }
    ScaleDown(gpr, 1.0 - p.occupancyRate);
    assert gpr - gpr * (1.0 - p.occupancyRate) == gpr * p.occupancyRate;
  }

  /** Management precedence: a given percentage prices management as that
      share of effective gross income whatever the fixed amount holds;
      without one, management is the fixed amount. */
  lemma ManagementPrecedence(egi: real, e: Expenses, otherFixed: Option<real>)
    ensures e.managementFeePercent.Some? ==>
      && Management(egi, e) == egi * e.managementFeePercent.value
      && Management(egi, e.(managementFeeFixed := otherFixed)) == Management(egi, e)
    ensures e.managementFeePercent.None? && e.managementFeeFixed.Some? ==>
      Management(egi, e) == e.managementFeeFixed.value
  {
  }

  /** The fixed management amount has no effect at all on the calculation
      when a percentage is given. */
  lemma FixedFeeIgnored(input: ProFormaInput, otherFixed: Option<real>)
    requires Validator.Valid(input)
    requires otherFixed.Some? ==> otherFixed.value >= 0.0
    requires input.expenses.managementFeePercent.Some?
    ensures var altered := input.(expenses := input.expenses.(managementFeeFixed := otherFixed));
      Validator.Valid(altered) && Calculate(altered) == Calculate(input)
  {
    var altered := input.(expenses := input.expenses.(managementFeeFixed := otherFixed));
    var egi := RevenueOf(input.property).effectiveGrossIncome;
    ManagementPrecedence(egi, input.expenses, otherFixed);
    assert ExpensesOf(input.property, altered.expenses, egi) == ExpensesOf(input.property, input.expenses, egi);
  }

  /** Operating expenses: the total is the sum of the seven reported
      components, taxes and insurance pass through unchanged, and for valid
      amounts every component and the total are at least zero; a management
      percentage of at most one takes at most the effective gross income. */
  lemma ExpenseBounds(p: Property, e: Expenses, egi: real)
    requires p.units > 0 && p.annualPropertyTaxes >= 0.0 && p.annualInsurance >= 0.0
    requires e.managementFeePercent.Some? ==> 0.0 <= e.managementFeePercent.value <= 1.0
    requires e.managementFeeFixed.Some? ==> e.managementFeeFixed.value >= 0.0
    requires e.maintenancePerUnitAnnual >= 0.0 && e.utilitiesMonthly >= 0.0
    requires e.hoaMonthly >= 0.0 && e.otherMonthly >= 0.0
    requires egi >= 0.0
    ensures var x := ExpensesOf(p, e, egi);
      && x.totalOperatingExpenses
         == x.management + x.maintenance + x.propertyTaxes + x.insurance + x.utilities + x.hoa + x.other
      && x.propertyTaxes == p.annualPropertyTaxes
      && x.insurance == p.annualInsurance
      && x.management >= 0.0 && x.maintenance >= 0.0 && x.utilities >= 0.0
      && x.hoa >= 0.0 && x.other >= 0.0 && x.totalOperatingExpenses >= 0.0
      && (e.managementFeePercent.Some? ==> x.management <= egi)
  {
    var x := ExpensesOf(p, e, egi);
    assert x.management == Management(egi, e);
    if e.managementFeePercent.Some? {
      ScaleDown(egi, e.managementFeePercent.value);
      assert Management(egi, e) == egi * e.managementFeePercent.value;
      assert x.management <= egi;
    }
    assert e.maintenancePerUnitAnnual * p.units as real >= 0.0;
  }

  /** Debt service: the loan lies between zero and the purchase price, the
      annual debt service is twelve monthly payments, at least zero, and zero
      exactly when nothing is borrowed (the down payment is the whole price). */
  lemma DebtServiceBounds(f: Financing)
    requires f.purchasePrice > 0.0 && 0.0 <= f.downPaymentAmount <= f.purchasePrice
    requires 0.0 <= f.interestRate <= 1.0 && f.loanTermYears > 0
    ensures var d := DebtServiceOf(f);
      && 0.0 <= d.loanAmount <= f.purchasePrice
      && d.annualDebtService == 12.0 * d.monthlyPayment
      && d.numPayments == 12 * f.loanTermYears
      && d.monthlyRate * 12.0 == f.interestRate
      && d.annualDebtService >= 0.0
      && (d.annualDebtService == 0.0 <==> f.downPaymentAmount == f.purchasePrice)
  {
    var d := DebtServiceOf(f);
    MonthlyPaymentSign(d.loanAmount, d.monthlyRate, d.numPayments);
  }

  /** The whole calculation for a valid input: revenue, expenses and debt
      service keep their bounds, NOI is effective gross income less operating
      expenses, and the cash flow before tax is NOI less the debt service. */
  lemma CalculationIdentities(input: ProFormaInput)
    requires Validator.Valid(input)
    ensures var c := Calculate(input);
      && 0.0 <= c.revenue.effectiveGrossIncome <= c.revenue.grossPotentialRent
      && c.expenses.totalOperatingExpenses >= 0.0
      && c.cashFlow.netOperatingIncome == c.revenue.effectiveGrossIncome - c.expenses.totalOperatingExpenses
      && c.cashFlow.netOperatingIncome <= c.revenue.effectiveGrossIncome
      && c.cashFlow.annualDebtService == c.debt.annualDebtService >= 0.0
      && c.cashFlow.cashFlowBeforeTax == c.cashFlow.netOperatingIncome - c.cashFlow.annualDebtService
      && c.cashFlow.cashFlowBeforeTax <= c.cashFlow.netOperatingIncome
  {
    var c := Calculate(input);
    RevenueBounds(input.property);
    ExpenseBounds(input.property, input.expenses, c.revenue.effectiveGrossIncome);
    DebtServiceBounds(input.financing);
  }

  /** The ratios of a valid input. The cap rate is always defined (the price
      is positive) and is NOI over the price. The cash-on-cash return is
      undefined exactly when there is no down payment, and is otherwise the
      cash flow over the down payment. The coverage ratio is undefined exactly
      when there is no debt service, which is exactly when the down payment
      is the whole price; otherwise it is NOI over the debt service. */
  lemma RatiosDefinedness(input: ProFormaInput)
    requires Validator.Valid(input)
    ensures var c, f := Calculate(input), input.financing;
      && c.capRate.Some? && c.capRate.value * f.purchasePrice == c.cashFlow.netOperatingIncome
      && (c.cashOnCashReturn.None? <==> f.downPaymentAmount == 0.0)
      && (c.cashOnCashReturn.Some? ==> c.cashOnCashReturn.value * f.downPaymentAmount == c.cashFlow.cashFlowBeforeTax)
      && (c.debtServiceCoverageRatio.None? <==> c.cashFlow.annualDebtService == 0.0)
      && (c.debtServiceCoverageRatio.None? <==> f.downPaymentAmount == f.purchasePrice)
      && (c.debtServiceCoverageRatio.Some? ==>
            c.debtServiceCoverageRatio.value * c.cashFlow.annualDebtService == c.cashFlow.netOperatingIncome)
  {
    DebtServiceBounds(input.financing);
  }
}
