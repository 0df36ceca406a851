/** What the monthly payment is for: repaid every month for the loan term,
    it brings the balance of the loan to exactly zero. The payment formula
    read literally fails this at a zero interest rate, where it gives 0; the
    payment the calculation uses does not. */
module Amortization {
  import opened Types
  import opened Calculator
  import Validator

  /** The balance of a loan after `k` months in which interest accrues at
      `monthlyRate` and then `payment` is repaid. */
  function Balance(loan: real, monthlyRate: real, payment: real, k: nat): real
  {
    if k == 0 then loan else Balance(loan, monthlyRate, payment, k - 1) * (1.0 + monthlyRate) - payment
  }

  /** The closed form of the balance, scaled by the rate so that it also
      holds at a zero rate: r * B(k) = L * r * g^k - P * (g^k - 1), where
      g = 1 + r. */
  lemma {:induction false} BalanceClosedForm(loan: real, monthlyRate: real, payment: real, k: nat)
    ensures var growth := Pow(1.0 + monthlyRate, k);
      monthlyRate * Balance(loan, monthlyRate, payment, k)
        == loan * monthlyRate * growth - payment * (growth - 1.0)
  {
    if k > 0 {
      BalanceClosedForm(loan, monthlyRate, payment, k - 1);
      ClosedFormStep(loan, monthlyRate, payment,
                     Balance(loan, monthlyRate, payment, k - 1), Pow(1.0 + monthlyRate, k - 1));
    }
  }

  /** The algebra of one month: if the closed form holds for balance `b`
      and growth `q`, it holds for the next balance and growth. */
  lemma ClosedFormStep(loan: real, r: real, payment: real, b: real, q: real)
    requires r * b == loan * r * q - payment * (q - 1.0)
    ensures r * (b * (1.0 + r) - payment)
         == loan * r * ((1.0 + r) * q) - payment * ((1.0 + r) * q - 1.0)
  {
    var g := 1.0 + r;
    calc {
      r * (b * g - payment);
      (r * b) * g - r * payment;
      (loan * r * q - payment * (q - 1.0)) * g - r * payment;
      loan * r * (g * q) - payment * (g * q) + payment * g - r * payment;
      loan * r * (g * q) - payment * (g * q - 1.0);
    }
  }

  /** Without interest, each payment lowers the balance by the payment. */
  lemma {:induction false} BalanceWithoutInterest(loan: real, payment: real, k: nat)
    ensures Balance(loan, 0.0, payment, k) == loan - k as real * payment
  {
    if k > 0 {
      BalanceWithoutInterest(loan, payment, k - 1);
    }
  }

  /** The payment the calculation uses repays the loan in exactly the
      number of payments, at any rate of at least zero; for a positive rate
      it is the formula as written. */
  lemma PaymentRepaysLoan(loan: real, monthlyRate: real, numPayments: nat)
    requires monthlyRate >= 0.0 && numPayments > 0
    ensures Balance(loan, monthlyRate, MonthlyPayment(loan, monthlyRate, numPayments), numPayments) == 0.0
    ensures monthlyRate > 0.0 ==>
      MonthlyPayment(loan, monthlyRate, numPayments) == MonthlyPaymentAsWritten(loan, monthlyRate, numPayments)
  {
    var payment := MonthlyPayment(loan, monthlyRate, numPayments);
    if monthlyRate == 0.0 {
      BalanceWithoutInterest(loan, payment, numPayments);
      assert payment * numPayments as real == loan;
    } else {
      var growth := Pow(1.0 + monthlyRate, numPayments);
      PowAtLeastOne(1.0 + monthlyRate, numPayments);
      assert payment * (growth - 1.0) == loan * (monthlyRate * growth);
      BalanceClosedForm(loan, monthlyRate, payment, numPayments);
      assert monthlyRate * Balance(loan, monthlyRate, payment, numPayments) == 0.0;
    }
  }

  /** The formula as written pays nothing at a zero rate (its 0/0 is turned
      into 0), so a positive loan is never repaid: after every payment of
      the term the whole loan is still owed. */
  lemma AsWrittenZeroRateNeverRepays(loan: real, numPayments: nat)
    requires loan > 0.0 && numPayments > 0
    ensures MonthlyPaymentAsWritten(loan, 0.0, numPayments) == 0.0
    ensures Balance(loan, 0.0, MonthlyPaymentAsWritten(loan, 0.0, numPayments), numPayments) == loan
    ensures MonthlyPayment(loan, 0.0, numPayments) * numPayments as real == loan
  {
    PowOfOne(numPayments);
    BalanceWithoutInterest(loan, 0.0, numPayments);
  }

  /** One to any power is one. */
  lemma {:induction false} PowOfOne(n: nat)
    ensures Pow(1.0, n) == 1.0
  {
    if n > 0 {
      PowOfOne(n - 1);
    }
  }

  /** The concrete case: the default property bought with a 1,600,000 loan
      at 0% over 30 years. As written the annual debt service is 0 and the
      whole loan is still owed after 360 payments; the calculation's payment
      is 1,600,000 / 360 a month, 53,333.33... a year. */
  lemma ZeroRateCounterexample()
    ensures MonthlyPaymentAsWritten(1600000.0, 0.0, 360) * 12.0 == 0.0
    ensures Balance(1600000.0, 0.0, MonthlyPaymentAsWritten(1600000.0, 0.0, 360), 360) == 1600000.0
    ensures MonthlyPayment(1600000.0, 0.0, 360) * 12.0 == 160000.0 / 3.0
  {
    AsWrittenZeroRateNeverRepays(1600000.0, 360);
  }

  /** g^n - 1 <= n * r * g^n for g = 1 + r and r >= 0: the growth of a loan
      over n months is at most n months of interest on the final amount. */
  lemma {:induction false} GrowthBound(monthlyRate: real, n: nat)
    requires monthlyRate >= 0.0
    ensures Pow(1.0 + monthlyRate, n) - 1.0 <= n as real * monthlyRate * Pow(1.0 + monthlyRate, n)
  {
    if n > 0 {
      GrowthBound(monthlyRate, n - 1);
      PowAtLeastOne(1.0 + monthlyRate, n - 1);
      GrowthStep(monthlyRate, Pow(1.0 + monthlyRate, n - 1), (n - 1) as real);
    }
  }

  /** The algebra of one month of `GrowthBound`. */
  lemma GrowthStep(r: real, q: real, m: real)
    requires r >= 0.0 && q >= 1.0 && m >= 0.0
    requires q - 1.0 <= m * r * q
    ensures (1.0 + r) * q - 1.0 <= (m + 1.0) * r * ((1.0 + r) * q)
  {
    var g := 1.0 + r;
    assert g * q - 1.0 == (q - 1.0) + r * q;
    assert m * r * q <= m * r * (g * q) by {
      assert m * r * (g * q) - m * r * q == m * r * (r * q);
      assert m * r >= 0.0;
      assert r * q >= 0.0;
    }
    assert r * q <= r * (g * q) by {
      assert r * (g * q) - r * q == r * (r * q);
    }
  }

  /** Over the whole term the borrower pays back at least the loan: the
      interest a payment includes is never negative. */
  lemma TotalRepaidCoversLoan(loan: real, monthlyRate: real, numPayments: nat)
    requires loan >= 0.0 && monthlyRate >= 0.0 && numPayments > 0
    ensures numPayments as real * MonthlyPayment(loan, monthlyRate, numPayments) >= loan
  {
    var payment := MonthlyPayment(loan, monthlyRate, numPayments);
    if monthlyRate > 0.0 {
      var growth := Pow(1.0 + monthlyRate, numPayments);
      PowAtLeastOne(1.0 + monthlyRate, numPayments);
      GrowthBound(monthlyRate, numPayments);
      assert payment * (growth - 1.0) == loan * (monthlyRate * growth);
      RepaymentStep(loan, monthlyRate, numPayments as real, growth, payment);
    }
  }

  /** The algebra of `TotalRepaidCoversLoan`: from the payment equation
      P * (G - 1) = L * r * G and the growth bound G - 1 <= n * r * G,
      n * P >= L. */
  lemma RepaymentStep(loan: real, r: real, n: real, growth: real, payment: real)
    requires loan >= 0.0 && r > 0.0 && n > 0.0 && growth > 1.0
    requires payment * (growth - 1.0) == loan * (r * growth)
    requires growth - 1.0 <= n * r * growth
    ensures n * payment >= loan
  {
    var total, c := n * payment, growth - 1.0;
    assert total * c == loan * (n * r * growth);
    assert loan * (n * r * growth) >= loan * c by {
      assert loan * (n * r * growth) - loan * c == loan * (n * r * growth - c);
    }
    assert (total - loan) * c == total * c - loan * c;
    assert (total - loan) * c >= 0.0;
    NonNegativeFactor(total - loan, c);
  }

  /** A product that is at least zero with a positive factor has its other
      factor at least zero. */
  lemma NonNegativeFactor(x: real, c: real)
    requires c > 0.0 && x * c >= 0.0
    ensures x >= 0.0
  {
  }

  /** For every valid input, the calculation's debt service repays its loan
      over the term: the balance after the last payment is zero. */
  lemma CalculationRepaysLoan(input: ProFormaInput)
    requires Validator.Valid(input)
    ensures var d := Calculate(input).debt;
      Balance(d.loanAmount, d.monthlyRate, d.monthlyPayment, d.numPayments) == 0.0
  {
    var d := DebtServiceOf(input.financing);
    PaymentRepaysLoan(d.loanAmount, d.monthlyRate, d.numPayments);
  }
}
