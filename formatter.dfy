/** Formatting the raw calculation into the output record: money rounded to
    2 decimal places, ratios to 4, a ratio with a zero denominator reported
    as 0 (the coverage ratio as null), and the monthly summary as the six
    annual figures divided by 12. Rounding is half away from zero: a value
    exactly halfway between two candidates goes to the one farther from 0. */
module Formatter {
  import opened Types
  import opened Calculator

  /** The nearest integer to `y`, halves away from zero. */
  function NearestInteger(y: real): (k: int)
    ensures -0.5 <= k as real - y <= 0.5
    ensures k as real - y == 0.5 ==> y >= 0.0
    ensures k as real - y == -0.5 ==> y < 0.0
  {
    if y >= 0.0 then (y + 0.5).Floor else -((-y + 0.5).Floor)
  }

  /** An integer is its own nearest integer. */
  lemma NearestIntegerOfInteger(k: int)
    ensures NearestInteger(k as real) == k
  {
  }

  /** Units per one at 2 decimal places (cents) and at 4 decimal places. */
  const MoneyScale: real := 100.0
  const RatioScale: real := 10000.0

  /** `x` rounded to a whole number of units of size 1/s: for s = 10^d,
      `x` rounded to d decimal places. */
  function RoundAt(x: real, s: real): real
    requires s > 0.0
  {
    NearestInteger(x * s) as real / s
  }

  /** `v` is a whole number of units of size 1/s. */
  predicate WholeUnits(v: real, s: real)
  {
    (v * s).Floor as real == v * s
  }

  /** Rounding gives a whole number of units, at most half a unit from the
      value, and exactly half a unit only away from zero. */
  lemma RoundAtSpec(x: real, s: real)
    requires s > 0.0
    ensures WholeUnits(RoundAt(x, s), s)
    ensures -0.5 <= (RoundAt(x, s) - x) * s <= 0.5
    ensures (RoundAt(x, s) - x) * s == 0.5 ==> x >= 0.0
    ensures (RoundAt(x, s) - x) * s == -0.5 ==> x < 0.0
  {
    var k := NearestInteger(x * s);
    assert RoundAt(x, s) * s == k as real;
    assert (RoundAt(x, s) - x) * s == k as real - x * s;
    if x < 0.0 {
      assert x * s < 0.0;
    } else {
      assert x * s >= 0.0;
    }
  }

  /** Rounding a rounded value changes nothing. */
  lemma RoundAtIdempotent(x: real, s: real)
    requires s > 0.0
    ensures RoundAt(RoundAt(x, s), s) == RoundAt(x, s)
  {
    var k := NearestInteger(x * s);
    assert RoundAt(x, s) * s == k as real;
    NearestIntegerOfInteger(k);
  }

  /** Boundary values of the rounding mode: halves go away from zero. */
  lemma RoundHalfAwayFromZero()
    ensures Money(0.125) == 0.13
    ensures Money(-0.125) == -0.13
    ensures Money(0.124999) == 0.12
    ensures Ratio(0.00005) == 0.0001
    ensures Ratio(-0.00005) == -0.0001
  {
  }

  /** Money: 2 decimal places. */
  function Money(x: real): real
  {
    RoundAt(x, MoneyScale)
  }

  /** Ratios: 4 decimal places. */
  function Ratio(x: real): real
  {
    RoundAt(x, RatioScale)
  }

  /** The output record of a raw calculation. */
  function Format(c: Calculation): ProFormaOutput
  {
    var r, x, cf := c.revenue, c.expenses, c.cashFlow;
    ProFormaOutput(
      Revenue(Money(r.grossPotentialRent), Money(r.vacancyLoss), Money(r.effectiveGrossIncome)),
      ExpenseBreakdown(Money(x.management), Money(x.maintenance), Money(x.propertyTaxes),
                       Money(x.insurance), Money(x.utilities), Money(x.hoa), Money(x.other),
                       Money(x.totalOperatingExpenses)),
      CashFlow(Money(cf.netOperatingIncome), Money(cf.annualDebtService), Money(cf.cashFlowBeforeTax)),
      Metrics(Ratio(c.capRate.GetOr(0.0)),
              Ratio(c.cashOnCashReturn.GetOr(0.0)),
              match c.debtServiceCoverageRatio
              case Some(dscr) => Some(Ratio(dscr))
              case None => None),
      MonthlySummary(Money(r.grossPotentialRent / 12.0), Money(r.effectiveGrossIncome / 12.0),
                     Money(x.totalOperatingExpenses / 12.0), Money(cf.netOperatingIncome / 12.0),
                     Money(cf.annualDebtService / 12.0), Money(cf.cashFlowBeforeTax / 12.0)))
  }

  /** `v` is `x` rounded to units of 1/s: a whole number of units, at most
      half a unit away. */
  predicate RoundedFrom(v: real, x: real, s: real)
  {
    WholeUnits(v, s) && -0.5 <= (v - x) * s <= 0.5
  }

  /** Every monetary field of the output is its raw figure rounded to 2
      decimals. */
  lemma MoneyFieldsRounded(c: Calculation)
    ensures var o, r, x, cf := Format(c), c.revenue, c.expenses, c.cashFlow;
      && RoundedFrom(o.revenue.grossPotentialRent, r.grossPotentialRent, MoneyScale)
      && RoundedFrom(o.revenue.vacancyLoss, r.vacancyLoss, MoneyScale)
      && RoundedFrom(o.revenue.effectiveGrossIncome, r.effectiveGrossIncome, MoneyScale)
      && RoundedFrom(o.expenses.management, x.management, MoneyScale)
      && RoundedFrom(o.expenses.maintenance, x.maintenance, MoneyScale)
      && RoundedFrom(o.expenses.propertyTaxes, x.propertyTaxes, MoneyScale)
      && RoundedFrom(o.expenses.insurance, x.insurance, MoneyScale)
      && RoundedFrom(o.expenses.utilities, x.utilities, MoneyScale)
      && RoundedFrom(o.expenses.hoa, x.hoa, MoneyScale)
      && RoundedFrom(o.expenses.other, x.other, MoneyScale)
      && RoundedFrom(o.expenses.totalOperatingExpenses, x.totalOperatingExpenses, MoneyScale)
      && RoundedFrom(o.cashFlow.netOperatingIncome, cf.netOperatingIncome, MoneyScale)
      && RoundedFrom(o.cashFlow.annualDebtService, cf.annualDebtService, MoneyScale)
      && RoundedFrom(o.cashFlow.cashFlowBeforeTax, cf.cashFlowBeforeTax, MoneyScale)
  {
    var r, x, cf := c.revenue, c.expenses, c.cashFlow;
    RoundAtSpec(r.grossPotentialRent, MoneyScale);
    RoundAtSpec(r.vacancyLoss, MoneyScale);
    RoundAtSpec(r.effectiveGrossIncome, MoneyScale);
    RoundAtSpec(x.management, MoneyScale);
    RoundAtSpec(x.maintenance, MoneyScale);
    RoundAtSpec(x.propertyTaxes, MoneyScale);
    RoundAtSpec(x.insurance, MoneyScale);
    RoundAtSpec(x.utilities, MoneyScale);
    RoundAtSpec(x.hoa, MoneyScale);
    RoundAtSpec(x.other, MoneyScale);
    RoundAtSpec(x.totalOperatingExpenses, MoneyScale);
    RoundAtSpec(cf.netOperatingIncome, MoneyScale);
    RoundAtSpec(cf.annualDebtService, MoneyScale);
    RoundAtSpec(cf.cashFlowBeforeTax, MoneyScale);
  }

  /** The ratios: a defined ratio is rounded to 4 decimals; an undefined cap
      rate or cash-on-cash return (NaN or Infinity) is 0; the coverage ratio
      is null exactly when it is undefined, never 0 for that reason. */
  lemma RatioFieldsFormatted(c: Calculation)
    ensures var m := Format(c).metrics;
      && (c.capRate.Some? ==> RoundedFrom(m.capRate, c.capRate.value, RatioScale))
      && (c.capRate.None? ==> m.capRate == 0.0)
      && (c.cashOnCashReturn.Some? ==> RoundedFrom(m.cashOnCashReturn, c.cashOnCashReturn.value, RatioScale))
      && (c.cashOnCashReturn.None? ==> m.cashOnCashReturn == 0.0)
      && (m.debtServiceCoverageRatio.None? <==> c.debtServiceCoverageRatio.None?)
      && (c.debtServiceCoverageRatio.Some? ==>
            RoundedFrom(m.debtServiceCoverageRatio.value, c.debtServiceCoverageRatio.value, RatioScale))
  {
    RoundAtSpec(c.capRate.GetOr(0.0), RatioScale);
    RoundAtSpec(c.cashOnCashReturn.GetOr(0.0), RatioScale);
    RoundAtSpec(0.0, RatioScale);
    if c.debtServiceCoverageRatio.Some? {
      RoundAtSpec(c.debtServiceCoverageRatio.value, RatioScale);
    }
    NearestIntegerOfInteger(0);
  }

  /** The monthly summary: each of its six fields is the matching annual
      figure divided by 12 and rounded to 2 decimals, so twelve times it is
      within 6.5 cents of the rounded annual figure. */
  lemma MonthlySummaryFromAnnual(c: Calculation)
    ensures var o, r, x, cf := Format(c), c.revenue, c.expenses, c.cashFlow;
      && RoundedFrom(o.monthlySummary.grossRent, r.grossPotentialRent / 12.0, MoneyScale)
      && RoundedFrom(o.monthlySummary.effectiveRent, r.effectiveGrossIncome / 12.0, MoneyScale)
      && RoundedFrom(o.monthlySummary.operatingExpenses, x.totalOperatingExpenses / 12.0, MoneyScale)
      && RoundedFrom(o.monthlySummary.noi, cf.netOperatingIncome / 12.0, MoneyScale)
      && RoundedFrom(o.monthlySummary.debtService, cf.annualDebtService / 12.0, MoneyScale)
      && RoundedFrom(o.monthlySummary.cashFlow, cf.cashFlowBeforeTax / 12.0, MoneyScale)
    ensures var o := Format(c);
      && CloseToTwelfth(o.monthlySummary.grossRent, o.revenue.grossPotentialRent)
      && CloseToTwelfth(o.monthlySummary.effectiveRent, o.revenue.effectiveGrossIncome)
      && CloseToTwelfth(o.monthlySummary.operatingExpenses, o.expenses.totalOperatingExpenses)
      && CloseToTwelfth(o.monthlySummary.noi, o.cashFlow.netOperatingIncome)
      && CloseToTwelfth(o.monthlySummary.debtService, o.cashFlow.annualDebtService)
      && CloseToTwelfth(o.monthlySummary.cashFlow, o.cashFlow.cashFlowBeforeTax)
  {
    var r, x, cf := c.revenue, c.expenses, c.cashFlow;
    MonthlyOf(r.grossPotentialRent);
    MonthlyOf(r.effectiveGrossIncome);
    MonthlyOf(x.totalOperatingExpenses);
    MonthlyOf(cf.netOperatingIncome);
    MonthlyOf(cf.annualDebtService);
    MonthlyOf(cf.cashFlowBeforeTax);
  }

  /** Twelve times `monthly` is within 6.5 cents of `annual`. */
  predicate CloseToTwelfth(monthly: real, annual: real)
  {
    -0.065 <= 12.0 * monthly - annual <= 0.065
  }

  /** One monthly field: rounded from the annual figure over 12, and twelve
      of it close to the rounded annual figure. */
  lemma MonthlyOf(annual: real)
    ensures RoundedFrom(Money(annual / 12.0), annual / 12.0, MoneyScale)
    ensures CloseToTwelfth(Money(annual / 12.0), Money(annual))
  {
    RoundAtSpec(annual / 12.0, MoneyScale);
    RoundAtSpec(annual, MoneyScale);
  }
}
