/** Money arithmetic over exact reals: the code's `Decimal` with its 28-digit context replaced by
    the numbers it approximates, the rounding to a cent kept. */
module Money {
  import opened Options

  function Cents(n: int): real { n as real / 100.0 }

  /** Quantize to two places, ties away from zero (ROUND_HALF_UP). */
  function ToMoney(x: real): real {
    if x >= 0.0 then Cents((x * 100.0 + 0.5).Floor) else -Cents((-x * 100.0 + 0.5).Floor)
  }

  function Abs(x: real): real { if x < 0.0 then -x else x }

  lemma {:induction false} NearestFromAbove(x: real, n: int)
    requires x >= 0.0 && n == (x * 100.0 + 0.5).Floor
    ensures x - 0.005 < Cents(n) <= x + 0.005
  {
    assert n as real <= x * 100.0 + 0.5 < n as real + 1.0;
  }

  lemma {:induction false} MoneyStays(n: int)
    ensures ToMoney(Cents(n)) == Cents(n)
  {
    var x := Cents(n);
    assert x * 100.0 == n as real;
    if n >= 0 {
      assert (n as real + 0.5).Floor == n;
    } else {
      assert -x * 100.0 == (-n) as real;
      assert ((-n) as real + 0.5).Floor == -n;
      assert -Cents(-n) == Cents(n);
    }
  }

  /** The nearest whole number of cents, a tie going away from zero. */
  lemma {:induction false} ToMoneyIsNearest(x: real) returns (n: int)
    ensures ToMoney(x) == n as real / 100.0
    ensures x - 0.005 <= ToMoney(x) <= x + 0.005
    ensures ToMoney(x) == x + 0.005 ==> x >= 0.0
    ensures ToMoney(x) == x - 0.005 ==> x < 0.0
  {
    if x >= 0.0 {
      n := (x * 100.0 + 0.5).Floor;
      NearestFromAbove(x, n);
    } else {
      var m := (-x * 100.0 + 0.5).Floor;
      NearestFromAbove(-x, m);
      n := -m;
      assert -Cents(m) == Cents(-m);
    }
  }

  /** Money is left alone. */
  lemma {:induction false} MoneyIsKept(n: int)
    ensures ToMoney(n as real / 100.0) == n as real / 100.0
  {
    MoneyStays(n);
  }

  function Pow(x: real, n: nat): real { if n == 0 then 1.0 else x * Pow(x, n - 1) }

  function MonthlyRate(annualPercent: real): (r: real)
    ensures annualPercent > 0.0 ==> r > 0.0
    ensures annualPercent == 0.0 <==> r == 0.0
  {
    annualPercent / 100.0 / 12.0
  }

  /** The code raises when the term is not positive, and when it would divide by zero. */
  predicate Defined(annualPercent: real, months: int) {
    months > 0 && (annualPercent == 0.0 || Pow(1.0 + MonthlyRate(annualPercent), months) != 1.0)
  }

  /** The amortization payment before rounding. */
  function ExactPayment(principal: real, annualPercent: real, months: int): real
    requires Defined(annualPercent, months)
  {
    if annualPercent == 0.0 then principal / months as real
    else LevelPayment(principal, MonthlyRate(annualPercent), Pow(1.0 + MonthlyRate(annualPercent), months))
  }

  /** The annuity formula. */
  function LevelPayment(principal: real, rate: real, factor: real): real
    requires factor != 1.0
  {
    principal * rate * factor / (factor - 1.0)
  }

  function MonthlyPayment(principal: real, annualPercent: real, months: int): Option<real> {
    if Defined(annualPercent, months) then Some(ToMoney(ExactPayment(principal, annualPercent, months))) else None
  }

  /** For a rate that is not negative the only failure is a term that is not positive. */
  lemma {:induction false} DefinedForOrdinaryRates(principal: real, annualPercent: real, months: int)
    requires annualPercent >= 0.0
    ensures MonthlyPayment(principal, annualPercent, months).Some? <==> months > 0
  {
    if months > 0 && annualPercent > 0.0 {
      GrowthExceedsOne(MonthlyRate(annualPercent), months);
    }
  }

  /** For any rate the payment fails exactly when the term is not positive or the growth of the debt is
      none although the rate is not zero. */
  lemma {:induction false} DefinedForAnyRate(principal: real, annualPercent: real, months: int)
    ensures MonthlyPayment(principal, annualPercent, months).None? <==>
            months <= 0 || (annualPercent != 0.0 && Pow(1.0 + annualPercent / 1200.0, months) == 1.0)
  {
    assert MonthlyRate(annualPercent) == annualPercent / 1200.0;
  }

  // ---- what a payment is for ----

  /** The balance after `n` months at monthly rate `rate`, paying `payment` at each month's end. */
  function Balance(principal: real, rate: real, payment: real, n: nat): real {
    if n == 0 then principal else Balance(principal, rate, payment, n - 1) * (1.0 + rate) - payment
  }

  /** What one unit paid at each month's end grows to. */
  function Annuity(rate: real, n: nat): real {
    if n == 0 then 0.0 else Annuity(rate, n - 1) * (1.0 + rate) + 1.0
  }

  lemma {:induction false} GrowthExceedsOne(rate: real, n: nat)
    requires rate > 0.0
    ensures Pow(1.0 + rate, n) >= 1.0
    ensures n > 0 ==> Pow(1.0 + rate, n) > 1.0
  {
    if n > 0 {
      GrowthExceedsOne(rate, n - 1);
      var p := Pow(1.0 + rate, n - 1);
      assert (1.0 + rate) * p == p + rate * p;
      Product(rate, p);
    }
  }

  lemma {:induction false} Product(a: real, b: real)
    requires a > 0.0 && b >= 1.0
    ensures a * b > 0.0
  {
  }

  /** Annuity * rate is the growth less one: the closed form of the geometric sum. */
  lemma {:induction false} AnnuityClosedForm(rate: real, n: nat)
    ensures Annuity(rate, n) * rate == Pow(1.0 + rate, n) - 1.0
  {
    if n > 0 {
      AnnuityClosedForm(rate, n - 1);
      var a, p := Annuity(rate, n - 1), Pow(1.0 + rate, n - 1);
      calc {
        Annuity(rate, n) * rate;
        (a * (1.0 + rate) + 1.0) * rate;
        (a * rate) * (1.0 + rate) + rate;
        (p - 1.0) * (1.0 + rate) + rate;
        (1.0 + rate) * p - 1.0;
      }
    }
  }

  lemma {:induction false} AnnuityAtZeroRate(n: nat)
    ensures Annuity(0.0, n) == n as real
  {
    if n > 0 { AnnuityAtZeroRate(n - 1); }
  }

  lemma {:induction false} OneMoreMonth(principal: real, p: real, payment: real, a: real, g: real)
    ensures (principal * p - payment * a) * g - payment == principal * (g * p) - payment * (a * g + 1.0)
  {
    assert (principal * p) * g == principal * (g * p);
    assert (payment * a) * g == payment * (a * g);
  }

  lemma {:induction false} BalanceClosedForm(principal: real, rate: real, payment: real, n: nat)
    ensures Balance(principal, rate, payment, n) == principal * Pow(1.0 + rate, n) - payment * Annuity(rate, n)
  {
    if n > 0 {
      BalanceClosedForm(principal, rate, payment, n - 1);
      OneMoreMonth(principal, Pow(1.0 + rate, n - 1), payment, Annuity(rate, n - 1), 1.0 + rate);
    }
  }

  lemma {:induction false} ExactPaymentCovers(principal: real, annualPercent: real, months: nat)
    requires Defined(annualPercent, months)
    ensures var rate := MonthlyRate(annualPercent);
            ExactPayment(principal, annualPercent, months) * Annuity(rate, months) == principal * Pow(1.0 + rate, months)
  {
    if annualPercent == 0.0 {
      AnnuityAtZeroRate(months);
      OnePow(months);
      Quotient(principal, months as real);
    } else {
      LevelPaymentCovers(principal, MonthlyRate(annualPercent), months);
    }
  }

  lemma {:induction false} LevelPaymentCovers(principal: real, rate: real, n: nat)
    requires Pow(1.0 + rate, n) != 1.0
    ensures LevelPayment(principal, rate, Pow(1.0 + rate, n)) * Annuity(rate, n) == principal * Pow(1.0 + rate, n)
  {
    AnnuityClosedForm(rate, n);
    Cancel(principal, rate, Pow(1.0 + rate, n), Annuity(rate, n));
  }

  lemma {:induction false} Quotient(x: real, d: real)
    requires d != 0.0
    ensures x / d * d == x
  {
  }

  lemma {:induction false} OnePow(n: nat)
    ensures Pow(1.0, n) == 1.0
  {
    if n > 0 { OnePow(n - 1); }
  }

  lemma {:induction false} Regroup(principal: real, rate: real, factor: real, a: real)
    ensures principal * rate * factor * a == principal * factor * (a * rate)
  {
    assert principal * rate * factor == principal * factor * rate;
  }

  lemma {:induction false} MoveDivision(x: real, d: real, y: real)
    requires d != 0.0
    ensures x / d * y == x * y / d
  {
  }

  lemma {:induction false} Cancel(principal: real, rate: real, factor: real, a: real)
    requires factor != 1.0 && a * rate == factor - 1.0
    ensures LevelPayment(principal, rate, factor) * a == principal * factor
  {
    var d, num := factor - 1.0, principal * rate * factor;
    Regroup(principal, rate, factor, a);
    MoveDivision(num, d, a);
    Quotient(principal * factor, d);
    MoveDivision(principal * factor, d, d);
  }

  /** The unrounded payment leaves exactly zero after the last month. */
  lemma {:induction false} ExactPaymentAmortizes(principal: real, annualPercent: real, months: nat)
    requires Defined(annualPercent, months)
    ensures Balance(principal, annualPercent / 1200.0, ExactPayment(principal, annualPercent, months), months) == 0.0
  {
    ExactPaymentCovers(principal, annualPercent, months);
    BalanceClosedForm(principal, MonthlyRate(annualPercent), ExactPayment(principal, annualPercent, months), months);
  }

  /** The payment the code returns, rounded to the cent, leaves a balance within
      0.005 * |((1 + r)^n - 1) / r| of zero, and within 0.005 * n at zero rate. */
  lemma {:induction false} RoundedPaymentNearlyAmortizes(principal: real, annualPercent: real, months: nat)
    requires Defined(annualPercent, months)
    ensures MonthlyPayment(principal, annualPercent, months).Some?
    ensures var payment, rate := MonthlyPayment(principal, annualPercent, months).value, annualPercent / 1200.0;
            var bound := 0.005 * Abs(if annualPercent == 0.0 then months as real else (Pow(1.0 + rate, months) - 1.0) / rate);
            -bound <= Balance(principal, rate, payment, months) <= bound
  {
    var exact := ExactPayment(principal, annualPercent, months);
    assert MonthlyRate(annualPercent) == annualPercent / 1200.0;
    var n := ToMoneyIsNearest(exact);
    AnyNearbyPayment(principal, annualPercent, months, ToMoney(exact));
  }

  lemma {:induction false} AnyNearbyPayment(principal: real, annualPercent: real, months: nat, payment: real)
    requires Defined(annualPercent, months)
    requires -0.005 <= ExactPayment(principal, annualPercent, months) - payment <= 0.005
    ensures var bound := Bound(annualPercent, months);
            -bound <= Balance(principal, MonthlyRate(annualPercent), payment, months) <= bound
  {
    AnnuityAmount(annualPercent, months);
    ExactPaymentCovers(principal, annualPercent, months);
    NearlyAmortizes(principal, MonthlyRate(annualPercent), ExactPayment(principal, annualPercent, months), payment, months,
                    Bound(annualPercent, months));
  }

  /** Half a cent off each month is half a cent's annuity off in the end. */
  lemma {:induction false} NearlyAmortizes(principal: real, rate: real, exact: real, payment: real, n: nat, bound: real)
    requires bound == 0.005 * Abs(Annuity(rate, n))
    requires exact * Annuity(rate, n) == principal * Pow(1.0 + rate, n)
    requires -0.005 <= exact - payment <= 0.005
    ensures -bound <= Balance(principal, rate, payment, n) <= bound
  {
    var balance, due, a := Ledger(principal, rate, payment, n);
    assert bound == 0.005 * Abs(a) && exact * a == due;
    ErrorBound(balance, due, exact, payment, a, bound);
  }

  /** The balance is what the debt grows to less what the payments grow to. */
  lemma {:induction false} Ledger(principal: real, rate: real, payment: real, n: nat) returns (balance: real, due: real, a: real)
    ensures balance == Balance(principal, rate, payment, n) && a == Annuity(rate, n) && due == principal * Pow(1.0 + rate, n)
    ensures balance == due - payment * a
  {
    balance, due, a := Balance(principal, rate, payment, n), principal * Pow(1.0 + rate, n), Annuity(rate, n);
    BalanceClosedForm(principal, rate, payment, n);
  }

  /** Half a cent for each month, with the interest it earns. */
  function Bound(annualPercent: real, months: nat): real {
    if annualPercent == 0.0 then 0.005 * months as real
    else 0.005 * Abs((Pow(1.0 + MonthlyRate(annualPercent), months) - 1.0) / MonthlyRate(annualPercent))
  }

  lemma {:induction false} AnnuityAmount(annualPercent: real, months: nat)
    ensures Bound(annualPercent, months) == 0.005 * Abs(Annuity(MonthlyRate(annualPercent), months))
  {
    var rate := MonthlyRate(annualPercent);
    if annualPercent == 0.0 {
      AnnuityAtZeroRate(months);
    } else {
      AnnuityClosedForm(rate, months);
      DivideOut(Annuity(rate, months), rate, Pow(1.0 + rate, months) - 1.0);
    }
  }

  lemma {:induction false} ErrorBound(balance: real, due: real, exact: real, payment: real, a: real, bound: real)
    requires balance == due - payment * a && bound == 0.005 * Abs(a)
    requires exact * a == due && -0.005 <= exact - payment <= 0.005
    ensures -bound <= balance <= bound
  {
    var low, high := exact - payment + 0.005, 0.005 - exact + payment;
    NonNegative(low, Abs(a));
    NonNegative(high, Abs(a));
    assert low * a == exact * a - payment * a + 0.005 * a;
    assert high * a == 0.005 * a - exact * a + payment * a;
    if a < 0.0 {
      assert low * Abs(a) == -(low * a) && high * Abs(a) == -(high * a);
    }
  }

  lemma {:induction false} NonNegative(x: real, y: real)
    requires x >= 0.0 && y >= 0.0
    ensures x * y >= 0.0
  {
  }

  lemma {:induction false} DivideOut(a: real, rate: real, growth: real)
    requires rate != 0.0 && a * rate == growth
    ensures a == growth / rate
  {
    MoveDivision(a, rate, rate);
    Quotient(a, rate);
  }
}
