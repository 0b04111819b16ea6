/** The recurrences behind every projection, over exact reals: compounding at one
    rate, compounding through a series of rates, and the yearly balance
    B <- B * (1 + rate) - W under a constant withdrawal W. */
module Recurrence {

  /** x raised to the n-th power. */
  function Pow(x: real, n: nat): real
  {
    if n == 0 then 1.0 else Pow(x, n - 1) * x
  }

  /** The geometric sum 1 + x + ... + x^(n-1), in Horner's form (GeomSumIsSum
      shows it adds x^n at each step). */
  function GeomSum(x: real, n: nat): real
  {
    if n == 0 then 0.0 else GeomSum(x, n - 1) * x + 1.0
  }

  /** The balance after n years that each apply `rate` and then take `withdrawal` out. */
  function EndBal(balance: real, rate: real, withdrawal: real, n: nat): real
  {
    if n == 0 then balance else EndBal(balance, rate, withdrawal, n - 1) * (1.0 + rate) - withdrawal
  }

  /** `principal` multiplied by (1 + rates[i]) for each i, in index order. */
  function Compound(principal: real, rates: seq<real>): real
  {
    if |rates| == 0 then principal
    else Compound(principal, rates[..|rates| - 1]) * (1.0 + rates[|rates| - 1])
  }

  lemma {:induction false} PowPositive(x: real, n: nat)
    requires x > 0.0
    ensures Pow(x, n) > 0.0
  {
    if n > 0 {
      PowPositive(x, n - 1);
    }
  }

  lemma {:induction false} PowAtMostOne(x: real, n: nat)
    requires 0.0 < x <= 1.0
    ensures 0.0 < Pow(x, n) <= 1.0
  {
    if n > 0 {
      PowAtMostOne(x, n - 1);
      assert Pow(x, n - 1) * x <= Pow(x, n - 1) * 1.0;
    }
  }

  /** Every term of the sum is positive and the first one is 1. */
  lemma {:induction false} GeomSumAtLeastOne(x: real, n: nat)
    requires x > 0.0 && n >= 1
    ensures GeomSum(x, n) >= 1.0
  {
    if n > 1 {
      GeomSumAtLeastOne(x, n - 1);
      assert GeomSum(x, n - 1) * x > 0.0;
    }
  }

  /** GeomSum is the sum of the powers: one more year adds x^n. */
  lemma {:induction false} GeomSumIsSum(x: real, n: nat)
    ensures GeomSum(x, n + 1) == GeomSum(x, n) + Pow(x, n)
  {
    if n > 0 {
      GeomSumIsSum(x, n - 1);
    }
  }

  /** The withdrawal recurrence with the growth factor x = 1 + rate as a parameter
      of its own; it lets the closed form be proved without expanding 1 + rate. */
  function EndBalByFactor(balance: real, x: real, w: real, n: nat): real
  {
    if n == 0 then balance else EndBalByFactor(balance, x, w, n - 1) * x - w
  }

  lemma {:induction false} ByFactorIsEndBal(balance: real, rate: real, w: real, n: nat)
    ensures EndBal(balance, rate, w, n) == EndBalByFactor(balance, 1.0 + rate, w, n)
  {
    if n > 0 {
      ByFactorIsEndBal(balance, rate, w, n - 1);
    }
  }

  lemma {:induction false} ByFactorClosedForm(balance: real, x: real, w: real, n: nat)
    ensures EndBalByFactor(balance, x, w, n) == balance * Pow(x, n) - w * GeomSum(x, n)
  {
    if n > 0 {
      ByFactorClosedForm(balance, x, w, n - 1);
    }
  }

  /** The closed form of the withdrawal recurrence: the balance grows as
      balance * (1 + rate)^n and each year's withdrawal w has grown for the
      remaining years, w * sum of (1 + rate)^i for i < n. */
  lemma {:induction false} EndBalClosedForm(balance: real, rate: real, w: real, n: nat)
    ensures EndBal(balance, rate, w, n) == balance * Pow(1.0 + rate, n) - w * GeomSum(1.0 + rate, n)
  {
    ByFactorIsEndBal(balance, rate, w, n);
    ByFactorClosedForm(balance, 1.0 + rate, w, n);
  }

  /** For a rate above -100%, withdrawing more never leaves more: the ending balance
      is non-increasing in the withdrawal, and after at least one year it drops by at
      least the difference in withdrawals (so it is strictly decreasing). */
  lemma EndBalAntitone(balance: real, rate: real, w1: real, w2: real, n: nat)
    requires rate > -1.0 && w1 <= w2
    ensures EndBal(balance, rate, w2, n) <= EndBal(balance, rate, w1, n)
    ensures n > 0 ==> EndBal(balance, rate, w1, n) - EndBal(balance, rate, w2, n) >= w2 - w1
  {
    ByFactorIsEndBal(balance, rate, w1, n);
    ByFactorIsEndBal(balance, rate, w2, n);
    ByFactorAntitone(balance, 1.0 + rate, w1, w2, n);
  }

  lemma {:induction false} ByFactorAntitone(balance: real, x: real, w1: real, w2: real, n: nat)
    requires x > 0.0 && w1 <= w2
    ensures EndBalByFactor(balance, x, w2, n) <= EndBalByFactor(balance, x, w1, n)
    ensures n > 0 ==> EndBalByFactor(balance, x, w1, n) - EndBalByFactor(balance, x, w2, n) >= w2 - w1
  {
    if n > 0 {
      ByFactorAntitone(balance, x, w1, w2, n - 1);
      DifferenceStep(EndBalByFactor(balance, x, w1, n - 1), EndBalByFactor(balance, x, w2, n - 1), x, w1, w2);
    }
  }

  /** One year of the recurrence on two balances keeps their order and widens the
      gap by the difference in withdrawals. */
  lemma DifferenceStep(e1: real, e2: real, x: real, w1: real, w2: real)
    requires e2 <= e1 && x > 0.0 && w1 <= w2
    ensures (e1 * x - w1) - (e2 * x - w2) >= w2 - w1
  {
    assert (e1 - e2) * x >= 0.0;
  }

  /** Withdrawing nothing leaves the balance compounded at the rate. */
  lemma {:induction false} ZeroWithdrawal(balance: real, rate: real, n: nat)
    ensures EndBal(balance, rate, 0.0, n) == balance * Pow(1.0 + rate, n)
  {
    EndBalClosedForm(balance, rate, 0.0, n);
  }

  /** Without growth every year with money left loses at least the withdrawal. */
  lemma {:induction false} NoGrowthBound(balance: real, rate: real, w: real, n: nat)
    requires -1.0 < rate <= 0.0 && w > 0.0
    ensures EndBal(balance, rate, w, n) <= 0.0 || EndBal(balance, rate, w, n) <= balance - n as real * w
  {
    if n > 0 {
      NoGrowthBound(balance, rate, w, n - 1);
      var prev := EndBal(balance, rate, w, n - 1);
      if prev <= 0.0 {
        assert prev * (1.0 + rate) <= 0.0;
      } else {
        assert prev * (1.0 + rate) <= prev;
      }
    }
  }

  /** Without growth the balance is gone by any year n with n * w >= balance. */
  lemma NoGrowthDepletes(balance: real, rate: real, w: real, n: nat)
    requires -1.0 < rate <= 0.0 && w > 0.0 && n as real * w >= balance
    ensures EndBal(balance, rate, w, n) <= 0.0
  {
    NoGrowthBound(balance, rate, w, n);
  }

  /** When a year's interest on the starting balance covers the withdrawal, the
      balance never falls below where it started, so it is never depleted. */
  lemma {:induction false} InterestCoversWithdrawal(balance: real, rate: real, w: real, n: nat)
    requires balance > 0.0 && rate >= 0.0 && w <= balance * rate
    ensures EndBal(balance, rate, w, n) >= balance
  {
    if n > 0 {
      InterestCoversWithdrawal(balance, rate, w, n - 1);
      assert EndBal(balance, rate, w, n - 1) * (1.0 + rate) >= balance * (1.0 + rate);
    }
  }

  /** A series of n equal rates r compounds exactly like the single rate r for n years. */
  lemma {:induction false} CompoundConstant(principal: real, rates: seq<real>, r: real)
    requires forall i :: 0 <= i < |rates| ==> rates[i] == r
    ensures Compound(principal, rates) == principal * Pow(1.0 + r, |rates|)
  {
    if |rates| > 0 {
      CompoundConstant(principal, rates[..|rates| - 1], r);
    }
  }

  lemma {:induction false} PowMonotone(x: real, m: nat, n: nat)
    requires x >= 1.0 && m <= n
    ensures Pow(x, m) <= Pow(x, n)
    decreases n
  {
    if m < n {
      PowMonotone(x, m, n - 1);
      PowPositive(x, n - 1);
      assert Pow(x, n - 1) * 1.0 <= Pow(x, n - 1) * x;
    }
  }

  /** At a zero rate each year simply takes the withdrawal out. */
  lemma {:induction false} ZeroRateEndBal(balance: real, w: real, n: nat)
    ensures EndBal(balance, 0.0, w, n) == balance - n as real * w
  {
    if n > 0 {
      ZeroRateEndBal(balance, w, n - 1);
    }
  }

  lemma {:induction false} PowAdd(x: real, m: nat, n: nat)
    ensures Pow(x, m + n) == Pow(x, m) * Pow(x, n)
    decreases n
  {
    if n > 0 {
      PowAdd(x, m, n - 1);
      MulAssoc(Pow(x, m), Pow(x, n - 1), x);
    }
  }

  lemma MulAssoc(a: real, b: real, c: real)
    ensures (a * b) * c == a * (b * c)
  {
  }

  /** When the withdrawal exceeds a year's interest on the starting balance, the
      balance falls every year. */
  lemma {:induction false} BalanceFallsEachYear(balance: real, rate: real, w: real, k: nat)
    requires rate > -1.0 && w > balance * rate
    ensures EndBal(balance, rate, w, k + 1) < EndBal(balance, rate, w, k)
  {
    if k > 0 {
      BalanceFallsEachYear(balance, rate, w, k - 1);
      FallStep(EndBal(balance, rate, w, k), EndBal(balance, rate, w, k - 1), 1.0 + rate, w);
    }
  }

  /** One year of the recurrence on two balances scales their difference by x > 0. */
  lemma FallStep(a: real, b: real, x: real, w: real)
    requires a < b && x > 0.0
    ensures a * x - w < b * x - w
  {
    assert (b - a) * x > 0.0;
  }

  /** Under the same condition every later year ends with less than every earlier one. */
  lemma {:induction false} BalanceFalls(balance: real, rate: real, w: real, j: nat, k: nat)
    requires rate > -1.0 && w > balance * rate && j < k
    ensures EndBal(balance, rate, w, k) < EndBal(balance, rate, w, j)
    decreases k
  {
    BalanceFallsEachYear(balance, rate, w, k - 1);
    if j < k - 1 {
      BalanceFalls(balance, rate, w, j, k - 1);
    }
  }
}
