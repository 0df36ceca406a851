/** Input validation: first the structural check (every required field is
    present), then the range check (every present value lies in its domain).
    The structural check reports every absent field, the range check every
    violated rule. */
module Validator {
  import opened Types

  /** The input as received: any field may be absent or null. */
  datatype RawProperty = RawProperty(
    units: Option<int>,
    monthlyRentPerUnit: Option<real>,
    occupancyRate: Option<real>,
    annualPropertyTaxes: Option<real>,
    annualInsurance: Option<real>)

  datatype RawExpenses = RawExpenses(
    managementFeePercent: Option<real>,
    managementFeeFixed: Option<real>,
    maintenancePerUnitAnnual: Option<real>,
    utilitiesMonthly: Option<real>,
    hoaMonthly: Option<real>,
    otherMonthly: Option<real>)

  datatype RawFinancing = RawFinancing(
    purchasePrice: Option<real>,
    downPaymentAmount: Option<real>,
    interestRate: Option<real>,
    loanTermYears: Option<int>)

  datatype RawInput = RawInput(
    property: RawProperty,
    expenses: RawExpenses,
    financing: RawFinancing)

  /** The input fields, in declaration order. */
  datatype Field =
    | Units | MonthlyRentPerUnit | OccupancyRate | AnnualPropertyTaxes | AnnualInsurance
    | ManagementFeePercent | ManagementFeeFixed | MaintenancePerUnitAnnual
    | UtilitiesMonthly | HoaMonthly | OtherMonthly
    | PurchasePrice | DownPaymentAmount | InterestRate | LoanTermYears

  /** The JSON name of a field, as error reports spell it. */
  function Name(field: Field): string
  {
    match field
    case Units => "units"
    case MonthlyRentPerUnit => "monthly_rent_per_unit"
    case OccupancyRate => "occupancy_rate"
    case AnnualPropertyTaxes => "annual_property_taxes"
    case AnnualInsurance => "annual_insurance"
    case ManagementFeePercent => "management_fee_percent"
    case ManagementFeeFixed => "management_fee_fixed"
    case MaintenancePerUnitAnnual => "maintenance_per_unit_annual"
    case UtilitiesMonthly => "utilities_monthly"
    case HoaMonthly => "hoa_monthly"
    case OtherMonthly => "other_monthly"
    case PurchasePrice => "purchase_price"
    case DownPaymentAmount => "down_payment_amount"
    case InterestRate => "interest_rate"
    case LoanTermYears => "loan_term_years"
  }

  /** Neither management field is given: the management expense cannot be
      priced. */
  predicate NoManagement(e: RawExpenses)
  {
    e.managementFeePercent.None? && e.managementFeeFixed.None?
  }

  /** The field is absent from `raw`. The two management fields count as
      absent only together: one of them is enough to price management. */
  predicate Absent(raw: RawInput, field: Field)
  {
    var p, e, f := raw.property, raw.expenses, raw.financing;
    match field
    case Units => p.units.None?
    case MonthlyRentPerUnit => p.monthlyRentPerUnit.None?
    case OccupancyRate => p.occupancyRate.None?
    case AnnualPropertyTaxes => p.annualPropertyTaxes.None?
    case AnnualInsurance => p.annualInsurance.None?
    case ManagementFeePercent => NoManagement(e)
    case ManagementFeeFixed => NoManagement(e)
    case MaintenancePerUnitAnnual => e.maintenancePerUnitAnnual.None?
    case UtilitiesMonthly => e.utilitiesMonthly.None?
    case HoaMonthly => e.hoaMonthly.None?
    case OtherMonthly => e.otherMonthly.None?
    case PurchasePrice => f.purchasePrice.None?
    case DownPaymentAmount => f.downPaymentAmount.None?
    case InterestRate => f.interestRate.None?
    case LoanTermYears => f.loanTermYears.None?
  }

  /** `[field]` when `missing` holds, otherwise nothing. */
  function Report(missing: bool, field: Field): (r: seq<Field>)
    ensures forall x :: x in r <==> missing && x == field
  {
    if missing then [field] else []
  }

  /** The group of the input a field belongs to. */
  datatype Group = PropertyGroup | ExpensesGroup | FinancingGroup

  function GroupOf(field: Field): Group
  {
    match field
    case Units | MonthlyRentPerUnit | OccupancyRate | AnnualPropertyTaxes | AnnualInsurance =>
      PropertyGroup
    case ManagementFeePercent | ManagementFeeFixed | MaintenancePerUnitAnnual
       | UtilitiesMonthly | HoaMonthly | OtherMonthly =>
      ExpensesGroup
    case PurchasePrice | DownPaymentAmount | InterestRate | LoanTermYears =>
      FinancingGroup
  }

  /** The absent fields of the `property` group, in declaration order. */
  function MissingProperty(raw: RawInput): (missing: seq<Field>)
    ensures forall field :: field in missing <==> GroupOf(field) == PropertyGroup && Absent(raw, field)
  {
    var p := raw.property;
    Report(p.units.None?, Units)
    + Report(p.monthlyRentPerUnit.None?, MonthlyRentPerUnit)
    + Report(p.occupancyRate.None?, OccupancyRate)
    + Report(p.annualPropertyTaxes.None?, AnnualPropertyTaxes)
    + Report(p.annualInsurance.None?, AnnualInsurance)
  }

  /** The absent fields of the `expenses` group, in declaration order. */
  function MissingExpenses(raw: RawInput): (missing: seq<Field>)
    ensures forall field :: field in missing <==> GroupOf(field) == ExpensesGroup && Absent(raw, field)
  {
    var e := raw.expenses;
    Report(NoManagement(e), ManagementFeePercent)
    + Report(NoManagement(e), ManagementFeeFixed)
    + Report(e.maintenancePerUnitAnnual.None?, MaintenancePerUnitAnnual)
    + Report(e.utilitiesMonthly.None?, UtilitiesMonthly)
    + Report(e.hoaMonthly.None?, HoaMonthly)
    + Report(e.otherMonthly.None?, OtherMonthly)
  }

  /** The absent fields of the `financing` group, in declaration order. */
  function MissingFinancing(raw: RawInput): (missing: seq<Field>)
    ensures forall field :: field in missing <==> GroupOf(field) == FinancingGroup && Absent(raw, field)
  {
    var f := raw.financing;
    Report(f.purchasePrice.None?, PurchasePrice)
    + Report(f.downPaymentAmount.None?, DownPaymentAmount)
    + Report(f.interestRate.None?, InterestRate)
    + Report(f.loanTermYears.None?, LoanTermYears)
  }

  /** No field is listed twice. */
  predicate Distinct(fields: seq<Field>)
  {
    forall i, j :: 0 <= i < j < |fields| ==> fields[i] != fields[j]
  }

  /** Two lists without repeats and without a common field make a list
      without repeats. */
  lemma DistinctConcat(a: seq<Field>, b: seq<Field>)
    requires Distinct(a) && Distinct(b)
    requires forall x :: x in a ==> x !in b
    ensures Distinct(a + b)
  {
    forall i, j | 0 <= i < j < |a + b|
      ensures (a + b)[i] != (a + b)[j]
    {
      if i < |a| && |a| <= j {
        assert (a + b)[i] in a && (a + b)[j] in b;
      }
    }
  }

  /** A list without repeats followed by the report of a field it does not
      hold is a list without repeats. */
  lemma ReportNew(listed: seq<Field>, missing: bool, field: Field)
    requires Distinct(listed) && field !in listed
    ensures Distinct(listed + Report(missing, field))
  {
    DistinctConcat(listed, Report(missing, field));
  }

  /** The property group lists no field twice. */
  lemma PropertyListedOnce(raw: RawInput)
    ensures Distinct(MissingProperty(raw))
  {
    var p := raw.property;
    var l1 := Report(p.units.None?, Units);
    var l2 := l1 + Report(p.monthlyRentPerUnit.None?, MonthlyRentPerUnit);
    var l3 := l2 + Report(p.occupancyRate.None?, OccupancyRate);
    var l4 := l3 + Report(p.annualPropertyTaxes.None?, AnnualPropertyTaxes);
    ReportNew(l1, p.monthlyRentPerUnit.None?, MonthlyRentPerUnit);
    ReportNew(l2, p.occupancyRate.None?, OccupancyRate);
    ReportNew(l3, p.annualPropertyTaxes.None?, AnnualPropertyTaxes);
    ReportNew(l4, p.annualInsurance.None?, AnnualInsurance);
  }

  /** The expenses group lists no field twice. */
  lemma ExpensesListedOnce(raw: RawInput)
    ensures Distinct(MissingExpenses(raw))
  {
    var e := raw.expenses;
    var l1 := Report(NoManagement(e), ManagementFeePercent);
    var l2 := l1 + Report(NoManagement(e), ManagementFeeFixed);
    var l3 := l2 + Report(e.maintenancePerUnitAnnual.None?, MaintenancePerUnitAnnual);
    var l4 := l3 + Report(e.utilitiesMonthly.None?, UtilitiesMonthly);
    var l5 := l4 + Report(e.hoaMonthly.None?, HoaMonthly);
    ReportNew(l1, NoManagement(e), ManagementFeeFixed);
    ReportNew(l2, e.maintenancePerUnitAnnual.None?, MaintenancePerUnitAnnual);
    ReportNew(l3, e.utilitiesMonthly.None?, UtilitiesMonthly);
    ReportNew(l4, e.hoaMonthly.None?, HoaMonthly);
    ReportNew(l5, e.otherMonthly.None?, OtherMonthly);
  }

  /** The financing group lists no field twice. */
  lemma FinancingListedOnce(raw: RawInput)
    ensures Distinct(MissingFinancing(raw))
  {
    var f := raw.financing;
    var l1 := Report(f.purchasePrice.None?, PurchasePrice);
    var l2 := l1 + Report(f.downPaymentAmount.None?, DownPaymentAmount);
    var l3 := l2 + Report(f.interestRate.None?, InterestRate);
    ReportNew(l1, f.downPaymentAmount.None?, DownPaymentAmount);
    ReportNew(l2, f.interestRate.None?, InterestRate);
    ReportNew(l3, f.loanTermYears.None?, LoanTermYears);
  }

  /** The `missing_fields` list of the "Invalid input format" error: every
      absent field, once, and nothing else. */
  function MissingFields(raw: RawInput): (missing: seq<Field>)
    ensures forall field :: field in missing <==> Absent(raw, field)
    ensures Distinct(missing)
  {
    var property, expenses, financing := MissingProperty(raw), MissingExpenses(raw), MissingFinancing(raw);
    PropertyListedOnce(raw);
    ExpensesListedOnce(raw);
    FinancingListedOnce(raw);
    DistinctConcat(property, expenses);
    DistinctConcat(property + expenses, financing);
    property + expenses + financing
  }

  /** The `missing_fields` list is decided by which fields are present
      alone, never by the values of the present ones. */
  lemma MissingFieldsDependOnPresence(raw: RawInput, other: RawInput)
    requires forall field :: Absent(raw, field) <==> Absent(other, field)
    ensures MissingFields(raw) == MissingFields(other)
  {
    PropertyPresence(raw, other);
    ExpensesPresence(raw, other);
    FinancingPresence(raw, other);
  }

  /** The absent `property` fields depend on presence alone. */
  lemma PropertyPresence(raw: RawInput, other: RawInput)
    requires forall field :: Absent(raw, field) <==> Absent(other, field)
    ensures MissingProperty(raw) == MissingProperty(other)
  {
    assert raw.property.units.None? == other.property.units.None? by {
      assert Absent(raw, Units) == Absent(other, Units);
    }
    assert raw.property.monthlyRentPerUnit.None? == other.property.monthlyRentPerUnit.None? by {
      assert Absent(raw, MonthlyRentPerUnit) == Absent(other, MonthlyRentPerUnit);
    }
    assert raw.property.occupancyRate.None? == other.property.occupancyRate.None? by {
      assert Absent(raw, OccupancyRate) == Absent(other, OccupancyRate);
    }
    assert raw.property.annualPropertyTaxes.None? == other.property.annualPropertyTaxes.None? by {
      assert Absent(raw, AnnualPropertyTaxes) == Absent(other, AnnualPropertyTaxes);
    }
    assert raw.property.annualInsurance.None? == other.property.annualInsurance.None? by {
      assert Absent(raw, AnnualInsurance) == Absent(other, AnnualInsurance);
    }
  }

  /** The absent `expenses` fields depend on presence alone. */
  lemma ExpensesPresence(raw: RawInput, other: RawInput)
    requires forall field :: Absent(raw, field) <==> Absent(other, field)
    ensures MissingExpenses(raw) == MissingExpenses(other)
  {
    assert NoManagement(raw.expenses) == NoManagement(other.expenses) by {
      assert Absent(raw, ManagementFeePercent) == Absent(other, ManagementFeePercent);
    }
    assert raw.expenses.maintenancePerUnitAnnual.None? == other.expenses.maintenancePerUnitAnnual.None? by {
      assert Absent(raw, MaintenancePerUnitAnnual) == Absent(other, MaintenancePerUnitAnnual);
    }
    assert raw.expenses.utilitiesMonthly.None? == other.expenses.utilitiesMonthly.None? by {
      assert Absent(raw, UtilitiesMonthly) == Absent(other, UtilitiesMonthly);
    }
    assert raw.expenses.hoaMonthly.None? == other.expenses.hoaMonthly.None? by {
      assert Absent(raw, HoaMonthly) == Absent(other, HoaMonthly);
    }
    assert raw.expenses.otherMonthly.None? == other.expenses.otherMonthly.None? by {
      assert Absent(raw, OtherMonthly) == Absent(other, OtherMonthly);
    }
  }

  /** The absent `financing` fields depend on presence alone. */
  lemma FinancingPresence(raw: RawInput, other: RawInput)
    requires forall field :: Absent(raw, field) <==> Absent(other, field)
    ensures MissingFinancing(raw) == MissingFinancing(other)
  {
    assert raw.financing.purchasePrice.None? == other.financing.purchasePrice.None? by {
      assert Absent(raw, PurchasePrice) == Absent(other, PurchasePrice);
    }
    assert raw.financing.downPaymentAmount.None? == other.financing.downPaymentAmount.None? by {
      assert Absent(raw, DownPaymentAmount) == Absent(other, DownPaymentAmount);
    }
    assert raw.financing.interestRate.None? == other.financing.interestRate.None? by {
      assert Absent(raw, InterestRate) == Absent(other, InterestRate);
    }
    assert raw.financing.loanTermYears.None? == other.financing.loanTermYears.None? by {
      assert Absent(raw, LoanTermYears) == Absent(other, LoanTermYears);
    }
  }

  /** A complete input as it would be received: every required value
      present, the management fields as they are. */
  function Received(input: ProFormaInput): RawInput
  {
    var p, e, f := input.property, input.expenses, input.financing;
    RawInput(
      RawProperty(Some(p.units), Some(p.monthlyRentPerUnit), Some(p.occupancyRate),
                  Some(p.annualPropertyTaxes), Some(p.annualInsurance)),
      RawExpenses(e.managementFeePercent, e.managementFeeFixed, Some(e.maintenancePerUnitAnnual),
                  Some(e.utilitiesMonthly), Some(e.hoaMonthly), Some(e.otherMonthly)),
      RawFinancing(Some(f.purchasePrice), Some(f.downPaymentAmount), Some(f.interestRate),
                   Some(f.loanTermYears)))
  }

  /** The structural check: the complete record when no required field is
      absent, nothing otherwise; the record holds exactly the values
      received. */
  function ToInput(raw: RawInput): (input: Option<ProFormaInput>)
    ensures input.Some? <==> MissingFields(raw) == []
    ensures input.Some? ==> Received(input.value) == raw
  {
    var p, e, f := raw.property, raw.expenses, raw.financing;
    if MissingFields(raw) != [] then None
    else
      assert forall field :: !Absent(raw, field);
      Some(ProFormaInput(
        Property(p.units.value, p.monthlyRentPerUnit.value, p.occupancyRate.value,
                 p.annualPropertyTaxes.value, p.annualInsurance.value),
        Expenses(e.managementFeePercent, e.managementFeeFixed,
                 e.maintenancePerUnitAnnual.value, e.utilitiesMonthly.value,
                 e.hoaMonthly.value, e.otherMonthly.value),
        Financing(f.purchasePrice.value, f.downPaymentAmount.value,
                  f.interestRate.value, f.loanTermYears.value)))
  }

  /** The range rules, stated once as a conjunction: the reference the
      range check is proved against. */
  predicate Valid(input: ProFormaInput)
  {
    var p, e, f := input.property, input.expenses, input.financing;
    && p.units > 0
    && p.monthlyRentPerUnit >= 0.0
    && 0.0 <= p.occupancyRate <= 1.0
    && p.annualPropertyTaxes >= 0.0
    && p.annualInsurance >= 0.0
    && (e.managementFeePercent.Some? ==> 0.0 <= e.managementFeePercent.value <= 1.0)
    && (e.managementFeeFixed.Some? ==> e.managementFeeFixed.value >= 0.0)
    && e.maintenancePerUnitAnnual >= 0.0
    && e.utilitiesMonthly >= 0.0
    && e.hoaMonthly >= 0.0
    && e.otherMonthly >= 0.0
    && f.purchasePrice > 0.0
    && 0.0 <= f.downPaymentAmount <= f.purchasePrice
    && 0.0 <= f.interestRate <= 1.0
    && f.loanTermYears > 0
  }

  /** Why a value was rejected. */
  datatype Reason = MustBePositive | MustBeNonNegative | MustBeFraction | MustNotExceedPrice

  /** The human-readable text of a reason. */
  function ReasonText(reason: Reason): string
  {
    match reason
    case MustBePositive => "must be > 0"
    case MustBeNonNegative => "must be >= 0"
    case MustBeFraction => "must be between 0 and 1"
    case MustNotExceedPrice => "must be <= purchase_price"
  }

  /** Every field of the input. */
  const AllFields: set<Field> := {
    Units, MonthlyRentPerUnit, OccupancyRate, AnnualPropertyTaxes, AnnualInsurance,
    ManagementFeePercent, ManagementFeeFixed, MaintenancePerUnitAnnual,
    UtilitiesMonthly, HoaMonthly, OtherMonthly,
    PurchasePrice, DownPaymentAmount, InterestRate, LoanTermYears}

  /** `Some(reason)` when `violated` holds, `None` otherwise. */
  function Check(violated: bool, reason: Reason): Option<Reason>
  {
    if violated then Some(reason) else None
  }

  /** The range check of one field: why its value is out of range, if it is.
      A null management field is never out of range. */
  function Violation(input: ProFormaInput, field: Field): Option<Reason>
  {
    var p, e, f := input.property, input.expenses, input.financing;
    match field
    case Units => Check(p.units <= 0, MustBePositive)
    case MonthlyRentPerUnit => Check(p.monthlyRentPerUnit < 0.0, MustBeNonNegative)
    case OccupancyRate => Check(p.occupancyRate < 0.0 || p.occupancyRate > 1.0, MustBeFraction)
    case AnnualPropertyTaxes => Check(p.annualPropertyTaxes < 0.0, MustBeNonNegative)
    case AnnualInsurance => Check(p.annualInsurance < 0.0, MustBeNonNegative)
    case ManagementFeePercent =>
      (match e.managementFeePercent
       case Some(percent) => Check(percent < 0.0 || percent > 1.0, MustBeFraction)
       case None => None)
    case ManagementFeeFixed =>
      (match e.managementFeeFixed
       case Some(fixed) => Check(fixed < 0.0, MustBeNonNegative)
       case None => None)
    case MaintenancePerUnitAnnual => Check(e.maintenancePerUnitAnnual < 0.0, MustBeNonNegative)
    case UtilitiesMonthly => Check(e.utilitiesMonthly < 0.0, MustBeNonNegative)
    case HoaMonthly => Check(e.hoaMonthly < 0.0, MustBeNonNegative)
    case OtherMonthly => Check(e.otherMonthly < 0.0, MustBeNonNegative)
    case PurchasePrice => Check(f.purchasePrice <= 0.0, MustBePositive)
    case DownPaymentAmount =>
      if f.downPaymentAmount < 0.0 then Some(MustBeNonNegative)
      else Check(f.downPaymentAmount > f.purchasePrice, MustNotExceedPrice)
    case InterestRate => Check(f.interestRate < 0.0 || f.interestRate > 1.0, MustBeFraction)
    case LoanTermYears => Check(f.loanTermYears <= 0, MustBePositive)
  }

  /** The `invalid_fields` map of the "Invalid input values" error: every
      field whose range check fails, with its reason. */
  function InvalidFields(input: ProFormaInput): map<Field, Reason>
  {
    map field | field in AllFields && Violation(input, field).Some? :: Violation(input, field).value
  }

  /** Each field is reported exactly when the value violates its own rule. */
  lemma InvalidFieldsKeys(input: ProFormaInput)
    ensures var m, p, e, f := InvalidFields(input), input.property, input.expenses, input.financing;
      && (Units in m <==> p.units <= 0)
      && (MonthlyRentPerUnit in m <==> p.monthlyRentPerUnit < 0.0)
      && (OccupancyRate in m <==> p.occupancyRate < 0.0 || p.occupancyRate > 1.0)
      && (AnnualPropertyTaxes in m <==> p.annualPropertyTaxes < 0.0)
      && (AnnualInsurance in m <==> p.annualInsurance < 0.0)
      && (ManagementFeePercent in m <==>
            e.managementFeePercent.Some? && (e.managementFeePercent.value < 0.0 || e.managementFeePercent.value > 1.0))
      && (ManagementFeeFixed in m <==> e.managementFeeFixed.Some? && e.managementFeeFixed.value < 0.0)
      && (MaintenancePerUnitAnnual in m <==> e.maintenancePerUnitAnnual < 0.0)
      && (UtilitiesMonthly in m <==> e.utilitiesMonthly < 0.0)
      && (HoaMonthly in m <==> e.hoaMonthly < 0.0)
      && (OtherMonthly in m <==> e.otherMonthly < 0.0)
      && (PurchasePrice in m <==> f.purchasePrice <= 0.0)
      && (DownPaymentAmount in m <==> f.downPaymentAmount < 0.0 || f.downPaymentAmount > f.purchasePrice)
      && (InterestRate in m <==> f.interestRate < 0.0 || f.interestRate > 1.0)
      && (LoanTermYears in m <==> f.loanTermYears <= 0)
  {
    ReportedIffViolated(input, Units);
    ReportedIffViolated(input, MonthlyRentPerUnit);
    ReportedIffViolated(input, OccupancyRate);
    ReportedIffViolated(input, AnnualPropertyTaxes);
    ReportedIffViolated(input, AnnualInsurance);
    ReportedIffViolated(input, ManagementFeePercent);
    ReportedIffViolated(input, ManagementFeeFixed);
    ReportedIffViolated(input, MaintenancePerUnitAnnual);
    ReportedIffViolated(input, UtilitiesMonthly);
    ReportedIffViolated(input, HoaMonthly);
    ReportedIffViolated(input, OtherMonthly);
    ReportedIffViolated(input, PurchasePrice);
    ReportedIffViolated(input, DownPaymentAmount);
    ReportedIffViolated(input, InterestRate);
    ReportedIffViolated(input, LoanTermYears);
  }

  /** A field is a key of the report exactly when its check fails, and then
      with that check's reason. */
  lemma ReportedIffViolated(input: ProFormaInput, field: Field)
    ensures field in InvalidFields(input) <==> Violation(input, field).Some?
    ensures field in InvalidFields(input) ==> InvalidFields(input)[field] == Violation(input, field).value
  {
    assert field in AllFields by {
      match field
      case Units =>
      case MonthlyRentPerUnit =>
      case OccupancyRate =>
      case AnnualPropertyTaxes =>
      case AnnualInsurance =>
      case ManagementFeePercent =>
      case ManagementFeeFixed =>
      case MaintenancePerUnitAnnual =>
      case UtilitiesMonthly =>
      case HoaMonthly =>
      case OtherMonthly =>
      case PurchasePrice =>
      case DownPaymentAmount =>
      case InterestRate =>
      case LoanTermYears =>
    }
  }

  /** The range check reports nothing exactly when every rule holds. */
  lemma InvalidFieldsEmptyIffValid(input: ProFormaInput)
    ensures InvalidFields(input) == map[] <==> Valid(input)
  {
    var m := InvalidFields(input);
    InvalidFieldsKeys(input);
    if Valid(input) {
      forall field | field in AllFields ensures field !in m {
        match field
        case Units =>
        case MonthlyRentPerUnit =>
        case OccupancyRate =>
        case AnnualPropertyTaxes =>
        case AnnualInsurance =>
        case ManagementFeePercent =>
        case ManagementFeeFixed =>
        case MaintenancePerUnitAnnual =>
        case UtilitiesMonthly =>
        case HoaMonthly =>
        case OtherMonthly =>
        case PurchasePrice =>
        case DownPaymentAmount =>
        case InterestRate =>
        case LoanTermYears =>
      }
      assert m.Keys == {};
    }
  }
}
