/**
 * The EMI preview of the loan calculator page (src/pages/LoanCalculator.tsx):
 * the monthly rate, the annuity instalment and the flat schedule of
 * `duration` rows that `calculateEMI` stores, over exact reals.
 */
module LoanCalculator {

  /** One row of the preview schedule. */
  datatype Row = Row(month: int, amount: real)

  /** `interest / 100 / 12`: the annual percentage as a monthly fraction. */
  function MonthlyRate(interest: real): (r: real)
    ensures r * 1200.0 == interest
    ensures interest > 0.0 ==> r > 0.0
    ensures interest == 0.0 ==> r == 0.0
  {
    interest / 100.0 / 12.0
  }

  /** `Math.pow` with a whole exponent. */
  function Pow(x: real, n: nat): real {
    if n == 0 then 1.0 else x * Pow(x, n - 1)
  }

  lemma {:induction false} PowAboveOne(x: real, n: nat)
    requires x > 1.0 && n >= 1
    ensures Pow(x, n) > 1.0
  {
    if n > 1 {
      PowAboveOne(x, n - 1);
      var p := Pow(x, n - 1);
      assert x * p - p == (x - 1.0) * p;
      assert (x - 1.0) * p > 0.0;
    }
  }

  lemma {:induction false} PowOfOne(n: nat)
    ensures Pow(1.0, n) == 1.0
  {
    if n > 0 {
      PowOfOne(n - 1);
    }
  }

  /** The growth factor `(1 + monthlyRate)^duration`. */
  function Growth(interest: real, duration: nat): real {
    Pow(1.0 + MonthlyRate(interest), duration)
  }

  /** The annuity instalment; the code divides by `Growth - 1` without a zero-rate branch. */
  function Emi(principal: real, interest: real, duration: nat): (emi: real)
    requires Growth(interest, duration) != 1.0
    ensures emi * (Growth(interest, duration) - 1.0)
              == principal * MonthlyRate(interest) * Growth(interest, duration)
  {
    var g := Growth(interest, duration);
    principal * MonthlyRate(interest) * g / (g - 1.0)
  }

  /** The instalment is defined: the schedule is empty, or the denominator is not zero. */
  predicate EmiDefined(interest: real, duration: int) {
    duration <= 0 || Growth(interest, duration) != 1.0
  }

  /** Any positive rate gives a defined instalment. */
  lemma PositiveRateDefined(interest: real, duration: int)
    requires interest > 0.0
    ensures EmiDefined(interest, duration)
  {
    if duration > 0 {
      PowAboveOne(1.0 + MonthlyRate(interest), duration);
    }
  }

  /** A zero rate never gives a defined instalment for a non-empty schedule: the
      denominator is `1^n - 1 = 0`. */
  lemma ZeroRateUndefined(duration: int)
    requires duration >= 1
    ensures !EmiDefined(0.0, duration)
  {
    PowOfOne(duration);
  }

  /** With a positive principal and rate and at least one month, the instalment is positive. */
  lemma EmiPositive(principal: real, interest: real, duration: nat)
    requires principal > 0.0 && interest > 0.0 && duration >= 1
    ensures Growth(interest, duration) > 1.0
    ensures Emi(principal, interest, duration) > 0.0
  {
    PowAboveOne(1.0 + MonthlyRate(interest), duration);
    var g := Growth(interest, duration);
    var emi := Emi(principal, interest, duration);
    var r := MonthlyRate(interest);
    assert principal * r > 0.0;
    assert principal * r * g > 0.0;
    assert emi * (g - 1.0) > 0.0;
  }

  /** The balance after `k` months: interest is added each month and one payment taken off. */
  function Balance(principal: real, rate: real, payment: real, k: nat): real {
    if k == 0 then principal else Balance(principal, rate, payment, k - 1) * (1.0 + rate) - payment
  }

  /** The closed form of the balance, multiplied through by the rate. */
  lemma {:induction false} BalanceClosedForm(principal: real, rate: real, payment: real, k: nat)
    ensures Balance(principal, rate, payment, k) * rate
              == principal * rate * Pow(1.0 + rate, k) - payment * (Pow(1.0 + rate, k) - 1.0)
  {
    if k > 0 {
      BalanceClosedForm(principal, rate, payment, k - 1);
      var b := Balance(principal, rate, payment, k - 1);
      var q := 1.0 + rate;
      var p := Pow(q, k - 1);
      assert Pow(q, k) == q * p;
      calc {
        Balance(principal, rate, payment, k) * rate;
        (b * q - payment) * rate;
        q * (b * rate) - payment * rate;
        q * (principal * rate * p - payment * (p - 1.0)) - payment * rate;
        principal * rate * (q * p) - payment * (q * p - q + rate);
        principal * rate * (q * p) - payment * (q * p - 1.0);
      }
    }
  }

  /** Paying the instalment every month for `duration` months repays the loan exactly. */
  lemma EmiRepaysLoan(principal: real, interest: real, duration: nat)
    requires Growth(interest, duration) != 1.0
    ensures Balance(principal, MonthlyRate(interest), Emi(principal, interest, duration), duration) == 0.0
  {
    var r := MonthlyRate(interest);
    var emi := Emi(principal, interest, duration);
    BalanceClosedForm(principal, r, emi, duration);
    if r == 0.0 {
      PowOfOne(duration);
      assert false;
    }
    var b := Balance(principal, r, emi, duration);
    assert b * r == 0.0;
  }

  /** The cents `toFixed(2)` keeps of a non-negative amount: the nearest, ties upwards. */
  function RoundCents(y: real): (r: real)
    requires y >= 0.0
    ensures r * 100.0 == (r * 100.0).Floor as real
    ensures y - 0.005 < r <= y + 0.005
  {
    var k := (y * 100.0 + 0.5).Floor;
    assert (k as real / 100.0) * 100.0 == k as real;
    k as real / 100.0
  }

  /** `parseFloat(x.toFixed(2))`: the nearest amount in whole cents, ties away from zero. */
  function Round2(x: real): (r: real)
    ensures r * 100.0 == (r * 100.0).Floor as real
    ensures x >= 0.0 ==> x - 0.005 < r <= x + 0.005
    ensures x < 0.0 ==> x - 0.005 <= r < x + 0.005
    ensures x >= 0.0 ==> r >= 0.0
    ensures x >= 0.005 ==> r >= 0.01
  {
    if x < 0.0 then
      var c := RoundCents(-x);
      var k := (c * 100.0).Floor;
      assert (-c) * 100.0 == (-k) as real;
      assert ((-k) as real).Floor == -k;
      -c
    else RoundCents(x)
  }

  /** `calculateEMI`'s schedule: `duration` rows, numbered from 1, each carrying the rounded instalment. */
  function CalculateEmi(principal: real, interest: real, duration: int): (schedule: seq<Row>)
    requires EmiDefined(interest, duration)
    ensures |schedule| == if duration > 0 then duration else 0
    ensures forall i :: 0 <= i < |schedule| ==> schedule[i].month == i + 1
    ensures forall i, j :: 0 <= i < j < |schedule| ==> schedule[i].month < schedule[j].month
    ensures forall i, j :: 0 <= i < |schedule| && 0 <= j < |schedule| ==> schedule[i].amount == schedule[j].amount
    ensures forall row :: row in schedule ==> row.amount * 100.0 == (row.amount * 100.0).Floor as real
    ensures duration > 0 ==> forall i :: 0 <= i < |schedule| ==>
              -0.005 <= schedule[i].amount - Emi(principal, interest, duration) <= 0.005
  {
    if duration <= 0 then []
    else
      var amount := Round2(Emi(principal, interest, duration));
      seq(duration, i => Row(i + 1, amount))
  }

  /** The "Approve Loan" button is shown only for a non-empty schedule. */
  predicate ApproveVisible(schedule: seq<Row>) {
    |schedule| > 0
  }

  /** The button appears exactly when the duration is at least one month. */
  lemma ApproveVisibleIff(principal: real, interest: real, duration: int)
    requires EmiDefined(interest, duration)
    ensures ApproveVisible(CalculateEmi(principal, interest, duration)) <==> duration > 0
  {
  }

  /** With a positive principal and rate, every row's amount is non-negative. */
  lemma ScheduleNonNegative(principal: real, interest: real, duration: int)
    requires principal > 0.0 && interest > 0.0
    ensures EmiDefined(interest, duration)
    ensures forall row :: row in CalculateEmi(principal, interest, duration) ==> row.amount >= 0.0
  {
    PositiveRateDefined(interest, duration);
    if duration > 0 {
      EmiPositive(principal, interest, duration);
    }
  }
}
