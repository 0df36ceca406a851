# Rental-property pro forma calculator, modelled in Dafny

The repository's calculator is a prompt: a deterministic rental-property pro
forma written out as formulas, validation rules, processing rules and error
shapes (`src/utils/constants.ts`), over the input and output records of
`src/lib/types.ts`. This project models that calculator as a pipeline of
pure functions — structural check, range check, calculation, formatting —
and proves what the prompt promises about each stage and about the whole.
It also models the one piece of text handling the agents perform on a
model's reply: the HTML visualization agent strips the reply and cuts the
HTML out of a Markdown code fence (`agents/visualization_agent.py`).

Modules:

- `Types` — the input record (management fields nullable) and the output
  record (the coverage ratio nullable).
- `Validator` — the received input with every field optional, the
  `missing_fields` list of the "Invalid input format" error, the conversion
  to a complete input, the range rules and the `invalid_fields` map of the
  "Invalid input values" error.
- `Calculator` — revenue, expenses, NOI, debt service, cash flow and the
  three ratios; a ratio whose denominator is zero is `None`.
- `Amortization` — the loan balance month by month, used to show that the
  payment the calculator uses repays the loan.
- `Formatter` — rounding to 2 decimals (money) and 4 decimals (ratios),
  the NaN/Infinity rule, the null coverage ratio and the monthly summary.
- `ProForma` — the calculator end to end and the sample input.
- `Fence` — Python's `str.strip`, `in` and `str.split`, and the fence
  extraction built from them.

Numbers are exact reals; `units` and `loan_term_years` are integers.

## Model

| member | source | states |
|---|---|---|
| Validator.Report | src/utils/constants.ts:124-129 | a field is listed exactly when it is missing |
| Validator.MissingProperty | src/utils/constants.ts:124-129 | the property fields listed are exactly the absent property fields |
| Validator.MissingExpenses | src/utils/constants.ts:124-129 | the expense fields listed are exactly the absent ones; a management field counts as absent only when neither management field is given |
| Validator.Absent | src/utils/constants.ts:124-129 | which fields count as missing: a field not given, except that the two management fields are missing only when both are null; Validator.MissingFields lists exactly these |
| Validator.Name | src/utils/constants.ts:124-129 | the names written in `missing_fields` and as keys of `invalid_fields`; ProForma.MissingUnitsReported shows `units` reported under its JSON name |
| Validator.MissingFinancing | src/utils/constants.ts:124-129 | the financing fields listed are exactly the absent financing fields |
| Validator.MissingFields | src/utils/constants.ts:124-129 | `missing_fields` lists every absent required field, each once, and nothing else |
| Validator.DistinctConcat | src/utils/constants.ts:128 | two lists without repeats and without a common field join into a list without repeats |
| Validator.ReportNew | src/utils/constants.ts:128 | reporting a field not yet listed keeps the list free of repeats |
| Validator.PropertyListedOnce | src/utils/constants.ts:128 | the property part of `missing_fields` names no field twice |
| Validator.ExpensesListedOnce | src/utils/constants.ts:128 | the expenses part of `missing_fields` names no field twice |
| Validator.FinancingListedOnce | src/utils/constants.ts:128 | the financing part of `missing_fields` names no field twice |
| Validator.MissingFieldsDependOnPresence | src/utils/constants.ts:124-129 | two inputs with the same fields present get the same `missing_fields`, whatever the values |
| Validator.PropertyPresence | src/utils/constants.ts:124-129 | the property part of `missing_fields` depends only on which fields are present |
| Validator.ExpensesPresence | src/utils/constants.ts:124-129 | the expenses part of `missing_fields` depends only on which fields are present |
| Validator.FinancingPresence | src/utils/constants.ts:124-129 | the financing part of `missing_fields` depends only on which fields are present |
| Validator.ToInput | src/lib/types.ts:1-23 | a complete input record exists exactly when no field is missing, and then, received again, it is exactly the input it came from: all fifteen values in their places, the management fields as received |
| Validator.InvalidFieldsKeys | src/utils/constants.ts:140-149 | each of the fifteen fields is a key of `invalid_fields` exactly when its own range rule fails |
| Validator.ReportedIffViolated | src/utils/constants.ts:131-149 | a field is reported exactly when its check fails, with that check's reason |
| Validator.InvalidFieldsEmptyIffValid | src/utils/constants.ts:131-149 | `invalid_fields` is empty exactly when every range rule holds |
| Validator.Violation | src/utils/constants.ts:140-149 | the range check of one field; its contract is stated by Validator.ReportedIffViolated and Validator.InvalidFieldsKeys |
| Validator.InvalidFields | src/utils/constants.ts:131-138 | the `invalid_fields` map; its contract is stated by Validator.InvalidFieldsKeys and Validator.InvalidFieldsEmptyIffValid |
| Validator.Valid | src/utils/constants.ts:140-149 | the range rules as one conjunction, the reference Validator.InvalidFieldsEmptyIffValid proves the map against |
| Calculator.PowAtLeastOne | src/utils/constants.ts:63 | `(1 + monthly_rate)^n` is at least 1, and above 1 for a positive rate and term |
| Calculator.Pow | src/utils/constants.ts:63 | `(1 + monthly_rate)^num_payments` as repeated multiplication; Calculator.PowAtLeastOne bounds it below by 1 and Amortization.PowOfOne makes it 1 at a zero rate |
| Calculator.Quotient | src/utils/constants.ts:70-72 | a quotient is undefined exactly when the denominator is zero, and otherwise times the denominator gives the numerator |
| Calculator.QuotientSign | src/utils/constants.ts:63 | over a positive denominator the quotient has the numerator's sign and is zero exactly when it is |
| Calculator.MonthlyPaymentSign | src/utils/constants.ts:59-64 | the monthly payment is at least zero, and zero exactly when nothing is borrowed |
| Calculator.RevenueOf | src/utils/constants.ts:38-40 | the revenue formulas; their contract is stated by Calculator.RevenueBounds |
| Calculator.Management | src/utils/constants.ts:43-46 | the management expense; its contract is stated by Calculator.ManagementPrecedence |
| Calculator.ExpensesOf | src/utils/constants.ts:43-53 | the expense formulas; their contract is stated by Calculator.ExpenseBounds and Calculator.FixedFeeIgnored |
| Calculator.MonthlyPaymentAsWritten | src/utils/constants.ts:63 | the payment formula as written with the NaN rule of line 118; its contract is stated by Amortization.AsWrittenZeroRateNeverRepays and Amortization.PaymentRepaysLoan |
| Calculator.MonthlyPayment | src/utils/constants.ts:59-64 | the payment the calculation uses; its contract is stated by Amortization.PaymentRepaysLoan and Calculator.MonthlyPaymentSign |
| Calculator.DebtServiceOf | src/utils/constants.ts:59-64 | the debt-service formulas; their contract is stated by Calculator.DebtServiceBounds |
| Calculator.Calculate | src/utils/constants.ts:38-72 | cash flow before tax is EGI less operating expenses less debt service; loan plus down payment is the purchase price |
| Calculator.ScaleDown | src/utils/constants.ts:39 | a share in [0, 1] of a non-negative amount lies between zero and the amount |
| Calculator.RevenueBounds | src/utils/constants.ts:38-40 | vacancy loss and EGI lie between zero and the gross potential rent, and EGI is the occupied share of twelve months' rent on every unit |
| Calculator.ManagementPrecedence | src/utils/constants.ts:43-46 | a management percentage prices management as that share of EGI whatever the fixed amount; without one, management is the fixed amount |
| Calculator.FixedFeeIgnored | src/utils/constants.ts:43-46 | with a percentage given, changing the fixed amount changes nothing in the calculation |
| Calculator.ExpenseBounds | src/utils/constants.ts:43-53 | the total is the sum of the seven components, taxes and insurance pass through, every component is at least zero, and a percentage fee is at most EGI |
| Calculator.DebtServiceBounds | src/utils/constants.ts:59-64 | the loan lies between zero and the price, debt service is twelve payments, at least zero, and zero exactly when the down payment is the whole price |
| Calculator.CalculationIdentities | src/utils/constants.ts:38-67 | for valid input: revenue and expense bounds, NOI is EGI less expenses, cash flow is NOI less debt service and at most NOI |
| Calculator.RatiosDefinedness | src/utils/constants.ts:70-72 | cap rate always defined; cash-on-cash undefined exactly when there is no down payment; DSCR undefined exactly when there is no debt service, i.e. the price is paid in full; defined ratios times their denominators give the numerators |
| Amortization.Balance | src/utils/constants.ts:63 | the month-by-month loan balance the payment formula is meant to clear; the reference Amortization.PaymentRepaysLoan proves the payment against |
| Amortization.BalanceClosedForm | src/utils/constants.ts:63 | the balance after k payments in closed form |
| Amortization.ClosedFormStep | src/utils/constants.ts:63 | one month keeps the closed form |
| Amortization.BalanceWithoutInterest | src/utils/constants.ts:63 | at a zero rate the balance falls by one payment a month |
| Amortization.PaymentRepaysLoan | src/utils/constants.ts:59-64 | the payment used repays the loan in exactly the number of payments at every rate of at least zero, and is the formula as written at a positive rate |
| Amortization.AsWrittenZeroRateNeverRepays | src/utils/constants.ts:63-64 | at a zero rate the formula as written (0/0 turned into 0) pays nothing and the balance never falls |
| Amortization.PowOfOne | src/utils/constants.ts:63 | `1^n` is 1, so the formula's denominator is zero at a zero rate |
| Amortization.ZeroRateCounterexample | src/utils/constants.ts:63-64 | the sample loan at a zero rate: debt service 0 as written, 53,333.33 a year corrected |
| Amortization.GrowthBound | src/utils/constants.ts:63 | `(1 + r)^n - 1` is at most `n * r * (1 + r)^n` |
| Amortization.GrowthStep | src/utils/constants.ts:63 | one more month keeps the growth bound |
| Amortization.TotalRepaidCoversLoan | src/utils/constants.ts:59-64 | all the payments together are at least the loan |
| Amortization.RepaymentStep | src/utils/constants.ts:63 | the payment equation and the growth bound give payments at least the loan |
| Amortization.NonNegativeFactor | src/utils/constants.ts:63 | a product with a positive factor that is at least zero has the other factor at least zero |
| Amortization.CalculationRepaysLoan | src/utils/constants.ts:59-64 | for every valid input the debt service of the calculation repays its loan over the term |
| Formatter.RoundAt | src/utils/constants.ts:116-117 | rounding to units of 1/s; its contract is stated by Formatter.RoundAtSpec and Formatter.RoundAtIdempotent |
| Formatter.Money | src/utils/constants.ts:116 | rounding to 2 decimals; see Formatter.RoundHalfAwayFromZero and Formatter.MoneyFieldsRounded |
| Formatter.Ratio | src/utils/constants.ts:117 | rounding to 4 decimals; see Formatter.RoundHalfAwayFromZero and Formatter.RatioFieldsFormatted |
| Formatter.Format | src/utils/constants.ts:114-120 | the output record; its contract is stated by Formatter.MoneyFieldsRounded, Formatter.RatioFieldsFormatted and Formatter.MonthlySummaryFromAnnual |
| Formatter.NearestInteger | src/utils/constants.ts:116-117 | the nearest integer, at most one half away, a half going away from zero |
| Formatter.NearestIntegerOfInteger | src/utils/constants.ts:116-117 | an integer rounds to itself |
| Formatter.RoundAtSpec | src/utils/constants.ts:116-117 | a rounded value is a whole number of units, at most half a unit away, halves away from zero |
| Formatter.RoundAtIdempotent | src/utils/constants.ts:116-117 | rounding a rounded value changes nothing |
| Formatter.RoundHalfAwayFromZero | src/utils/constants.ts:116-117 | boundary values: 0.125 gives 0.13, -0.125 gives -0.13, 0.124999 gives 0.12, 0.00005 gives 0.0001 |
| Formatter.MoneyFieldsRounded | src/utils/constants.ts:116 | every monetary output field is its raw figure rounded to 2 decimals |
| Formatter.RatioFieldsFormatted | src/utils/constants.ts:117-119 | defined ratios are rounded to 4 decimals; an undefined cap rate or cash-on-cash return is 0; DSCR is null exactly when undefined |
| Formatter.MonthlySummaryFromAnnual | src/utils/constants.ts:120 | each monthly field is its annual figure over 12, rounded to 2 decimals, and twelve of it lie within 6.5 cents of the rounded annual figure |
| Formatter.MonthlyOf | src/utils/constants.ts:120 | one monthly field: rounded from annual/12 and close to a twelfth of the rounded annual figure |
| ProForma.Compute | src/utils/constants.ts:122-151 | a format error lists some field and comes with no complete input; a values error reports some field of an invalid input; an output is only computed from a valid input (the full statement is ProForma.ComputeOutcomes) |
| ProForma.Response.Error | src/utils/constants.ts:124-138 | the `error` string: "Invalid input format" with `missing_fields`, "Invalid input values" with `invalid_fields`, none for an output; stated by ProForma.ComputeOutcomes and ProForma.MissingUnitsReported |
| ProForma.ComputeOutcomes | src/utils/constants.ts:122-149 | exactly one of: the format error listing exactly the absent fields, when a field is absent; the values error keyed by exactly the violated fields, when a rule fails; the formatted calculation otherwise; with the two error strings |
| ProForma.FormatErrorIgnoresValues | src/utils/constants.ts:124-129 | a format error depends only on which fields are present, never on the values |
| ProForma.MissingUnitsReported | src/utils/constants.ts:124-129 | the sample input without `units` gives "Invalid input format" with `["units"]` |
| ProForma.DefaultInputFigures | src/utils/constants.ts:153-175 | the sample input passes both checks; GPR 180000, vacancy 9000, EGI 171000, management 13680, operating expenses 54080, NOI 116920, loan 1600000 over 360 payments, cap rate 0.0585 |
| ProForma.DefaultRawInput | src/utils/constants.ts:153-175 | the sample input: 10 units at 1500 a month, 95% occupancy, 8% management with no fixed fee, 2000000 price with 400000 down at 6.5% over 30 years; ProForma.DefaultInputFigures states what it computes to |
| Fence.StripLeft | agents/visualization_agent.py:86 | a suffix that is empty or starts with a non-space |
| Fence.StripRight | agents/visualization_agent.py:86 | a prefix that is empty or ends with a non-space |
| Fence.StripLeftDrops | agents/visualization_agent.py:86 | everything dropped on the left is whitespace |
| Fence.StripRightDrops | agents/visualization_agent.py:86 | everything dropped on the right is whitespace |
| Fence.Strip | agents/visualization_agent.py:86 | `strip()` leaves text neither beginning nor ending with whitespace |
| Fence.StripOccurs | agents/visualization_agent.py:86 | the stripped text occurs in the original after its leading whitespace |
| Fence.StripSpec | agents/visualization_agent.py:86 | everything before and after the stripped text is whitespace |
| Fence.IsSpace | agents/visualization_agent.py:86 | the characters Python's `strip()` removes; Fence.StripLeftDrops, Fence.StripRightDrops and Fence.StripSpec state the strip in its terms |
| Fence.StripStripped | agents/visualization_agent.py:86 | text that neither begins nor ends with whitespace is unchanged |
| Fence.StripIdempotent | agents/visualization_agent.py:86 | stripping twice is stripping once |
| Fence.FindFrom | agents/visualization_agent.py:89-92 | the first occurrence at or after a start index |
| Fence.Find | agents/visualization_agent.py:89-92 | the first occurrence, with none before it |
| Fence.ContainsIffOccurs | agents/visualization_agent.py:89 | `in` holds exactly when the text occurs somewhere |
| Fence.Contains | agents/visualization_agent.py:89-91 | Python's `in` on strings; Fence.ContainsIffOccurs states it holds exactly when the text occurs somewhere |
| Fence.FindFirst | agents/visualization_agent.py:89-92 | an occurrence with none before it is the one found |
| Fence.InfixTrans | agents/visualization_agent.py:89-92 | occurrence is transitive |
| Fence.NoneInInfix | agents/visualization_agent.py:89-92 | text occurring in a fence-free text is fence-free |
| Fence.UpTo | agents/visualization_agent.py:90-92 | the text before the first separator: a prefix without it, followed by it when there is one, and ending where the first occurrence starts; the whole text when there is none |
| Fence.Split | agents/visualization_agent.py:90-92 | `split` gives two or more pieces exactly when the separator occurs; the first is the text before it and the second the text after it up to the next |
| Fence.SplitStep | agents/visualization_agent.py:90-92 | one step of `split`: the text before the first separator, then the pieces of the rest |
| Fence.SplitJoin | agents/visualization_agent.py:90-92 | joining the pieces with the separator gives the text back |
| Fence.Around | agents/visualization_agent.py:90-92 | an occurrence cuts the text into before, separator and after |
| Fence.SplitPiecesLackSep | agents/visualization_agent.py:90-92 | no piece contains the separator |
| Fence.Extract | agents/visualization_agent.py:86-94 | the kept HTML neither begins nor ends with whitespace, and is the whole stripped reply when it holds no bare fence, and so no ```html fence either (branches stated by Fence.ExtractHtmlFence, Fence.ExtractBareFence and Fence.ExtractFenced) |
| Fence.HtmlFenced | agents/visualization_agent.py:90 | the ```html branch; its contract is stated by Fence.HtmlFencedContent and Fence.HtmlFenceKept |
| Fence.BareFenced | agents/visualization_agent.py:92 | the bare ``` branch; its contract is stated by Fence.ExtractBareFence and Fence.BareFenceKept |
| Fence.HtmlFenceIsFence | agents/visualization_agent.py:89-91 | text with a ```html fence has a ``` fence |
| Fence.ExtractUnfenced | agents/visualization_agent.py:86-94 | a reply without a fence is returned whole, stripped |
| Fence.ExtractBareFence | agents/visualization_agent.py:91-92 | with only bare fences, the text after the first ``` up to the next is returned, stripped |
| Fence.ExtractHtmlFence | agents/visualization_agent.py:89-90 | with a ```html fence, the text after it up to the next ``` is returned, stripped; only when that ``` runs into a further ```html is the text up to the ```html returned instead |
| Fence.HtmlFencedContent | agents/visualization_agent.py:90 | the ```html branch on its own keeps the text up to the next ```, or up to the next ```html when that ``` runs into it |
| Fence.FenceBeforeNextHtmlFence | agents/visualization_agent.py:90 | cutting at the next ```html and then at ``` is cutting at the first ```, except exactly when that ``` runs into the ```html: then the cut is at the ```html, a different place, and the ``` begins four backticks |
| Fence.FenceInPrefix | agents/visualization_agent.py:90 | the first ``` of a text, ending within a prefix, is the first ``` of that prefix |
| Fence.NoFenceInPrefix | agents/visualization_agent.py:90 | a prefix ending before the end of the first ``` holds none |
| Fence.ExtractFenced | agents/visualization_agent.py:89-92 | whenever a fence is present the returned HTML holds no ``` and occurs in the stripped reply |
| Fence.HtmlFenceKept | agents/visualization_agent.py:89-90 | the ```html branch returns fence-free text that occurs in the reply |
| Fence.BareFenceKept | agents/visualization_agent.py:91-92 | the bare branch returns fence-free text that occurs in the reply |
| Fence.StrippedPiece | agents/visualization_agent.py:90-92 | a fence-free piece stays fence-free and in place once stripped |
| Fence.ExtractStripped | agents/visualization_agent.py:86-94 | the returned HTML is already stripped |
| Fence.OverlappingFences | agents/visualization_agent.py:90 | after "```html`````html" the ``` runs into the next ```html, and the kept text is "``", not the empty text before the first ``` |
| Fence.LaterBackticksKept | agents/visualization_agent.py:90 | four backticks later in the reply are no overlap: after "```html<t/>``` x ````" the kept text is "<t/>" |

## Left out

- The model-serving calls (local runtime and hosted providers), the HTTP routes, the agent-to-agent message envelope, the agent launcher and the web UI: they are I/O and presentation; the calculator is modelled as the function the prompt describes.
- IEEE-754 arithmetic: numbers are exact reals, so NaN and Infinity arise only from division by zero, which is modelled as an undefined (`None`) ratio.
- JSON parsing and value kinds: a field is either present with a value of its type or absent; a string where a number belongs, or a fractional `units`, is not representable.
- The rounding mode: the prompt says only "rounded to 2 (4) decimal places"; the model fixes half away from zero.
- The management fields: a present `management_fee_percent` is checked to lie in [0, 1] and a present `management_fee_fixed` to be at least 0 even when the percentage takes precedence; when both are null both names are listed as missing.
- The NaN/Infinity rule is applied to the ratios, the only computed values that can divide by zero once the loan term is positive; a zero-rate payment follows the corrected formula (see Findings).
- The output type declares `debt_service_coverage_ratio` as a plain number (src/lib/types.ts:49), while the prompt asks for null on a zero denominator; the model follows the prompt and makes it optional.
- The monthly summary divides the unrounded annual figure by 12 and rounds the quotient; the prompt's rule also admits dividing the rounded annual output, and the two readings differ by at most one cent a month; under the reading taken, twelve monthly figures lie within 6.5 cents of the annual output (Formatter.MonthlySummaryFromAnnual).
- The error branch of the visualization agent (a non-200 status raises) and the HTML prompt it sends are I/O and not modelled.

## Findings

| source | as written | input that shows it | evidently intended | confidence | as-written member | corrected member |
|---|---|---|---|---|---|---|
| src/utils/constants.ts:63-64 | at `interest_rate` 0 the payment formula is 0/0, which the NaN rule (line 118) turns into a payment of 0 | the sample input with `interest_rate` 0: a loan of 1,600,000 over 360 payments gives `annual_debt_service` 0 and a balance that never falls | straight-line repayment, loan / num_payments: 53,333.33 a year | not executed | Amortization.AsWrittenZeroRateNeverRepays | Amortization.PaymentRepaysLoan |
