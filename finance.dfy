/** The earlier copy of the maximum-withdrawal optimiser. It answers 0 instead of
    failing when the balance or the horizon is not positive, and it does not check
    the rate. */
module Finance {
  import opened Recurrence
  import opened Withdrawal

  /** The horizon the two-argument maximumExpensed uses. */
  const DefaultYears: int := 30

  /** The largest constant yearly withdrawal that brings `balance` to about zero
      after `years` years at `rate`, rounded to cents; 0 when there is nothing to
      withdraw or no horizon. For validated inputs it is the same search, with the
      same answer, as RetirementSimulator.MaximumExpensed. */
  method MaximumExpensed(balance: real, rate: real, years: int) returns (w: real)
    ensures balance <= 0.0 || years <= 0 ==> w == 0.0
    ensures balance > 0.0 && years > 0 ==> w == OptimalWithdrawal(balance, rate, years)
    ensures w >= 0.0
  {
    if balance <= 0.0 || years <= 0 {
      return 0.0;
    }
    w := FindWithdrawal(balance, rate, years);
  }

  /** maximumExpensed over the default horizon of 30 years. */
  method MaximumExpensedDefault(balance: real, rate: real) returns (w: real)
    ensures balance <= 0.0 ==> w == 0.0
    ensures balance > 0.0 ==> w == OptimalWithdrawal(balance, rate, DefaultYears)
  {
    w := MaximumExpensed(balance, rate, DefaultYears);
  }

  /** With the rate left unchecked, a rate of -300% over two years makes the ending
      balance 4 + E for a withdrawal E, growing with the withdrawal, so no
      non-negative withdrawal brings it within a cent of zero. */
  lemma UncheckedRateMissesTarget(balance: real, rate: real, years: nat, e: real)
    requires balance == 1.0 && rate == -3.0 && years == 2
    ensures EndBal(balance, rate, e, years) == 4.0 + e
  {
    assert EndBal(balance, rate, e, years - 1) == -2.0 - e;
  }

  /** The answer Finance gives for that input is non-negative, so withdrawing it
      leaves at least 4 instead of about 0. */
  lemma UncheckedAnswerLeavesFour(balance: real, rate: real, years: nat)
    requires balance == 1.0 && rate == -3.0 && years == 2
    ensures EndBal(balance, rate, OptimalWithdrawal(balance, rate, years), years) >= 4.0
  {
    OptimalWithdrawalNonNegative(balance, rate, years);
    UncheckedRateMissesTarget(balance, rate, years, OptimalWithdrawal(balance, rate, years));
  }
}
