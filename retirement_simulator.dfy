/** The model layer of the retirement simulator: future value at a fixed rate and
    under a series of rates, the number of years a balance lasts under a constant
    withdrawal, and the largest constant withdrawal a balance sustains over a horizon. */
module RetirementSimulator {
  import opened Outcomes
  import opened JavaArith
  import opened Recurrence
  import opened Withdrawal

  /** The horizon the two-argument maximumExpensed uses. */
  const DefaultYears: int := 30

  /** Future value of `principal` compounded year by year at `rate` for `years` years.
      The inputs are checked in the order principal, years, rate. */
  method FixedInvestor(principal: real, rate: real, years: int) returns (res: Result<real>)
    ensures principal < 0.0 ==> res == Err(NegativePrincipal)
    ensures principal >= 0.0 && years < 0 ==> res == Err(NegativeYears)
    ensures principal >= 0.0 && years >= 0 && rate <= -1.0 ==> res == Err(RateBelowMinusOne)
    ensures res.Ok? <==> principal >= 0.0 && years >= 0 && rate > -1.0
    ensures res.Ok? ==> res.value == principal * Pow(1.0 + rate, years)
    ensures res.Ok? ==> res.value >= 0.0
    ensures res.Ok? && years == 0 ==> res.value == principal
  {
    if principal < 0.0 {
      return Err(NegativePrincipal);
    }
    if years < 0 {
      return Err(NegativeYears);
    }
    if rate <= -1.0 {
      return Err(RateBelowMinusOne);
    }
    var futureValue := principal;
    var currentYear := 0;
    while currentYear < years
      invariant 0 <= currentYear <= years
      invariant futureValue == principal * Pow(1.0 + rate, currentYear)
    {
      futureValue := futureValue * (1.0 + rate);
      currentYear := currentYear + 1;
    }
    PowPositive(1.0 + rate, years);
    res := Ok(futureValue);
  }

  /** Future value of `principal` multiplied by (1 + rate) for each rate in turn.
      A rate at or below -100% anywhere in the series is an error, even after earlier
      rates have been applied. */
  method VariableInvestor(principal: real, ratesList: seq<real>) returns (res: Result<real>)
    ensures principal < 0.0 ==> res == Err(NegativePrincipal)
    ensures principal >= 0.0 && |ratesList| == 0 ==> res == Err(EmptyRates)
    ensures principal >= 0.0 && (exists i :: 0 <= i < |ratesList| && ratesList[i] <= -1.0) ==> res == Err(RateBelowMinusOne)
    ensures res.Ok? <==> principal >= 0.0 && |ratesList| > 0 && forall i :: 0 <= i < |ratesList| ==> ratesList[i] > -1.0
    ensures res.Ok? ==> res.value == Compound(principal, ratesList)
  {
    if principal < 0.0 {
      return Err(NegativePrincipal);
    }
    if |ratesList| == 0 {
      return Err(EmptyRates);
    }
    var futureValue := principal;
    for i := 0 to |ratesList|
      invariant forall j :: 0 <= j < i ==> ratesList[j] > -1.0
      invariant futureValue == Compound(principal, ratesList[..i])
    {
      var rate := ratesList[i];
      if rate <= -1.0 {
        return Err(RateBelowMinusOne);
      }
      assert ratesList[..i + 1][..i] == ratesList[..i];
      futureValue := futureValue * (1.0 + rate);
    }
    assert ratesList[..|ratesList|] == ratesList;
    res := Ok(futureValue);
  }

  /** The inputs finallyRetired accepts. */
  predicate ValidDepletionInputs(startingBalance: real, annualWithdrawal: real, interestRate: real)
  {
    startingBalance >= 0.0 && annualWithdrawal > 0.0 && interestRate > -1.0
  }

  /** The year count reached when a balance with money left, growing at
      `interestRate` and losing `annualWithdrawal` a year, first has none left.
      The Java loop runs forever on inputs whose balance never depletes; the ghost
      `horizon` names a year by which it has depleted (vacuous when the inputs are
      rejected), and `years` is the true count, of which the Java int holds the
      32-bit wrap. The result is the FIRST year whose balance is at most zero, and
      zero exactly when the starting balance is zero. */
  method FinallyRetired(startingBalance: real, annualWithdrawal: real, interestRate: real, ghost horizon: nat)
    returns (res: Result<int>, ghost years: nat)
    requires ValidDepletionInputs(startingBalance, annualWithdrawal, interestRate) ==>
               EndBal(startingBalance, interestRate, annualWithdrawal, horizon) <= 0.0
    ensures startingBalance < 0.0 ==> res == Err(NegativeBalance)
    ensures startingBalance >= 0.0 && annualWithdrawal <= 0.0 ==> res == Err(NonPositiveWithdrawal)
    ensures startingBalance >= 0.0 && annualWithdrawal > 0.0 && interestRate <= -1.0 ==> res == Err(GrowthRateBelowMinusOne)
    ensures res.Ok? <==> ValidDepletionInputs(startingBalance, annualWithdrawal, interestRate)
    ensures res.Ok? ==> res.value == WrapInt32(years) && years <= horizon
    ensures res.Ok? ==> EndBal(startingBalance, interestRate, annualWithdrawal, years) <= 0.0
    ensures res.Ok? ==> forall k :: 0 <= k < years ==> EndBal(startingBalance, interestRate, annualWithdrawal, k) > 0.0
    ensures res.Ok? ==> (years == 0 <==> startingBalance == 0.0)
  {
    years := 0;
    if startingBalance < 0.0 {
      return Err(NegativeBalance), years;
    }
    if annualWithdrawal <= 0.0 {
      return Err(NonPositiveWithdrawal), years;
    }
    if interestRate <= -1.0 {
      return Err(GrowthRateBelowMinusOne), years;
    }
    var currentBalance := startingBalance;
    var duration := 0;
    while currentBalance > 0.0
      invariant years <= horizon
      invariant duration == WrapInt32(years)
      invariant currentBalance == EndBal(startingBalance, interestRate, annualWithdrawal, years)
      invariant forall k :: 0 <= k < years ==> EndBal(startingBalance, interestRate, annualWithdrawal, k) > 0.0
      invariant years > 0 ==> startingBalance > 0.0
      decreases horizon - years
    {
      var interestEarned := currentBalance * interestRate;
      var postInterestBalance := currentBalance + interestEarned;
      var postWithdrawal := postInterestBalance - annualWithdrawal;
      assert postWithdrawal == currentBalance * (1.0 + interestRate) - annualWithdrawal;
      currentBalance := postWithdrawal;
      IncWrapInt32(years);
      duration := IncInt32(duration);
      years := years + 1;
      if currentBalance <= 0.0 {
        break;
      }
    }
    res := Ok(duration);
  }

  /** The largest constant yearly withdrawal that brings `principal` to about zero
      after `years` years at `rate`, rounded to cents. A principal of zero or less
      answers 0 before the years are checked; then years and rate are validated. */
  method MaximumExpensed(principal: real, rate: real, years: int) returns (res: Result<real>)
    ensures principal <= 0.0 ==> res == Ok(0.0)
    ensures principal > 0.0 && years <= 0 ==> res == Err(NonPositiveYears)
    ensures principal > 0.0 && years > 0 && rate <= -1.0 ==> res == Err(RateBelowMinusOne)
    ensures principal > 0.0 && years > 0 && rate > -1.0 ==> res == Ok(OptimalWithdrawal(principal, rate, years))
    ensures res.Ok? ==> res.value >= 0.0
  {
    if principal <= 0.0 {
      return Ok(0.0);
    }
    if years <= 0 {
      return Err(NonPositiveYears);
    }
    if rate <= -1.0 {
      return Err(RateBelowMinusOne);
    }
    var w := FindWithdrawal(principal, rate, years);
    res := Ok(w);
  }

  /** maximumExpensed over the default horizon of 30 years. */
  method MaximumExpensedDefault(principal: real, rate: real) returns (res: Result<real>)
    ensures principal <= 0.0 ==> res == Ok(0.0)
    ensures principal > 0.0 && rate <= -1.0 ==> res == Err(RateBelowMinusOne)
    ensures principal > 0.0 && rate > -1.0 ==> res == Ok(OptimalWithdrawal(principal, rate, DefaultYears))
  {
    res := MaximumExpensed(principal, rate, DefaultYears);
  }

  /** 100000 at 5% with 10000 withdrawn a year runs out in year 15 and not before, so
      FinallyRetired(100000, 10000, 0.05, 15) answers Ok(15). */
  lemma DepletionExample()
    ensures EndBal(100000.0, 0.05, 10000.0, 15) <= 0.0
    ensures forall k :: 0 <= k < 15 ==> EndBal(100000.0, 0.05, 10000.0, k) > 0.0
  {
    assert EndBal(100000.0, 0.05, 10000.0, 14) > 0.0;
    forall k | 0 <= k < 14
      ensures EndBal(100000.0, 0.05, 10000.0, k) > 0.0
    {
      BalanceFalls(100000.0, 0.05, 10000.0, k, 14);
    }
  }
}
