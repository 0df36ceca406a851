/** The calculator end to end: structural check, range check, calculation,
    formatting. A result is exactly one of the output record, the "Invalid
    input format" error or the "Invalid input values" error. */
module ProForma {
  import opened Types
  import opened Validator
  import opened Calculator
  import opened Formatter

  /** What the calculator returns for one input. */
  datatype Response =
    | Output(output: ProFormaOutput)
    | FormatError(missingFields: seq<Field>)
    | ValuesError(invalidFields: map<Field, Reason>)
  {
    /** The `error` string of the response, none for an output. */
    function Error(): Option<string>
    {
      match this
      case Output(_) => None
      case FormatError(_) => Some("Invalid input format")
      case ValuesError(_) => Some("Invalid input values")
    }
  }

  /** The calculator: a missing field stops before any range rule is
      looked at; a violated range rule stops before any calculation, so an
      output is only ever computed from a valid input. */
  function Compute(raw: RawInput): (response: Response)
    ensures response.FormatError? ==> response.missingFields != [] && ToInput(raw).None?
    ensures response.ValuesError? ==>
      response.invalidFields != map[] && ToInput(raw).Some? && !Valid(ToInput(raw).value)
    ensures response.Output? ==> ToInput(raw).Some? && Valid(ToInput(raw).value)
  {
    var missing := MissingFields(raw);
    if missing != [] then FormatError(missing)
    else
      var input := ToInput(raw).value;
      var invalid := InvalidFields(input);
      InvalidFieldsEmptyIffValid(input);
      if invalid != map[] then ValuesError(invalid)
      else Output(Format(Calculate(input)))
  }

  /** The three outcomes and when each happens: the format error, listing
      exactly the absent fields, when a field is absent; otherwise the values
      error, keyed by exactly the fields that break their rules, when a rule
      is broken; otherwise the formatted calculation. */
  lemma ComputeOutcomes(raw: RawInput)
    ensures var response := Compute(raw);
      && (response.FormatError? <==> exists field :: Absent(raw, field))
      && (response.FormatError? ==>
            && response.Error() == Some("Invalid input format")
            && forall field :: field in response.missingFields <==> Absent(raw, field))
      && (response.ValuesError? <==> ToInput(raw).Some? && !Valid(ToInput(raw).value))
      && (response.ValuesError? ==>
            && response.Error() == Some("Invalid input values")
            && forall field :: field in response.invalidFields <==> Violation(ToInput(raw).value, field).Some?)
      && (response.Output? <==> ToInput(raw).Some? && Valid(ToInput(raw).value))
      && (response.Output? ==>
            && response.Error() == None
            && response.output == Format(Calculate(ToInput(raw).value)))
  {
    var missing := MissingFields(raw);
    if missing != [] {
      assert missing[0] in missing;
    } else {
      assert forall field :: !Absent(raw, field);
      var input := ToInput(raw).value;
      InvalidFieldsEmptyIffValid(input);
      forall field ensures field in InvalidFields(input) <==> Violation(input, field).Some? {
        ReportedIffViolated(input, field);
      }
    }
  }

  /** A format error depends only on which fields are present: the values of
      the present fields are never range-checked before it is reported. */
  lemma FormatErrorIgnoresValues(raw: RawInput, other: RawInput)
    requires forall field :: Absent(raw, field) <==> Absent(other, field)
    requires Compute(raw).FormatError?
    ensures Compute(other) == Compute(raw)
  {
    MissingFieldsDependOnPresence(raw, other);
  }

  /** The sample input without its `units` field: the format error lists
      `units` and nothing else. */
  lemma MissingUnitsReported()
    ensures var raw := DefaultRawInput.(property := DefaultRawInput.property.(units := None));
      Compute(raw) == FormatError([Units]) && Compute(raw).Error() == Some("Invalid input format")
    ensures Name(Units) == "units"
  {
  }

  /** The sample input shipped with the calculator, as received. */
  const DefaultRawInput: RawInput := RawInput(
    RawProperty(Some(10), Some(1500.0), Some(0.95), Some(12000.0), Some(8000.0)),
    RawExpenses(Some(0.08), None, Some(1200.0), Some(500.0), Some(0.0), Some(200.0)),
    RawFinancing(Some(2000000.0), Some(400000.0), Some(0.065), Some(30)))

  /** The sample input passes both checks, and its revenue, operating
      expenses and NOI come out as the figures the formulas give by hand. */
  lemma DefaultInputFigures()
    ensures ToInput(DefaultRawInput).Some?
    ensures Valid(ToInput(DefaultRawInput).value)
    ensures var c := Calculate(ToInput(DefaultRawInput).value);
      && c.revenue.grossPotentialRent == 180000.0
      && c.revenue.vacancyLoss == 9000.0
      && c.revenue.effectiveGrossIncome == 171000.0
      && c.expenses.management == 13680.0
      && c.expenses.totalOperatingExpenses == 54080.0
      && c.cashFlow.netOperatingIncome == 116920.0
      && c.debt.loanAmount == 1600000.0
      && c.debt.numPayments == 360
    ensures Compute(DefaultRawInput).Output?
    ensures Compute(DefaultRawInput).output.metrics.capRate == 0.0585
  {
    var input := ToInput(DefaultRawInput).value;
    assert Valid(input);
    var c := Calculate(input);
    assert c.revenue == RevenueOf(input.property);
    assert c.capRate == Some(116920.0 / 2000000.0);
    InvalidFieldsEmptyIffValid(input);
  }
}
