# Retirement projection model

A Dafny model of the calculation layer of a small retirement simulator. It covers
`RetirementPlan/src/model/RetirementSimulator.java`, a class of static methods, and
`RetirementPlan/Finance.java`, an earlier copy of its withdrawal optimiser. The
operations are:

- **fixedInvestor**: compounds a principal year by year at one rate.
- **variableInvestor**: compounds a principal through a list of yearly rates, in order.
- **finallyRetired**: counts the years until a balance is exhausted. Each year applies
  `B <- B * (1 + r) - W`.
- **maximumExpensed**: finds the largest constant yearly withdrawal that brings a balance
  to about zero over a horizon. There are two overloads in each file; the short one
  uses 30 years. It widens a bracket `[0, hi]`, bisects it for at most 200 steps, and
  returns early once the ending balance is within one cent of zero. The answer is
  rounded to cents with `Math.round`.

Amounts and rates are Dafny `real`s, so the recurrences hold exactly. Each Java loop
is a Dafny method whose loop invariant ties it to a recursive specification function
in module `Recurrence` or `Withdrawal`. In `Recurrence`:
- `Pow` is the power;
- `EndBal` is the balance after n years of withdrawals;
- `GeomSum` is the geometric sum;
- `Compound` applies a series of rates;
- `EndBalByFactor` is `EndBal` with the growth factor 1 + rate as a parameter of its
  own. It exists only so that the nonlinear proofs stay cheap, and `ByFactorIsEndBal`
  shows the two agree.

In `Withdrawal`, `Expand` is the widening of the bracket and `Bisect` the bisection.

Each `IllegalArgumentException` becomes an `Err` of the `Outcomes.Result` type. The
error names the condition that was violated, so the order of the checks is visible in
the contracts.

Modules:
- `Outcomes`: the result type and the validation failures.
- `JavaArith`: the two Java integer widths that bound a result. `Math.round` returns a
  `long` and saturates at its range. `finallyRetired` counts years in an `int`, which
  wraps after 2^31 - 1.
- `Recurrence`: the recurrences and what is proved about them:
  - the closed form of the withdrawal recurrence;
  - the ending balance is non-increasing in the withdrawal, and strictly decreasing
    after at least one year;
  - when a balance depletes and when it never does;
  - a constant rate series agrees with the fixed rate.
- `Withdrawal`: the optimiser. Both Java files contain it line for line the same, so it
  is modelled once. The specification functions are `InitialHi`, `Expand`, `Bisect` and
  `OptimalWithdrawal`. The loop methods are `EndBalance` (the `endBalance` lambda),
  `WidenBracket`, `Bisection` and `FindWithdrawal`. The lemmas give the bracket
  invariants and what the search guarantees.
- `RetirementSimulator` and `Finance`: the operations of the two classes, each with its
  own guards, calling the shared optimiser.

Results proved about the exact-real model:
- **The widening loop never runs for validated inputs.** This holds when the principal
  and the years are positive and the rate is above -100%. Withdrawing the first upper
  end (the principal, or the principal compounded over the horizon) already exhausts
  the balance (`Withdrawal.InitialHiDepletes`).
- **Where the search ends.** If the bisection stops early, the unrounded midpoint has an
  ending balance within a cent of zero. Otherwise the final bracket is 2^200 times
  narrower than the first and still has money left at its lower end and none at its
  upper end (`Withdrawal.SearchOutcome`).
- **`finallyRetired` is not total.** Its loop never ends when a year's interest on the
  starting balance covers the withdrawal (`Recurrence.InterestCoversWithdrawal`). The
  model therefore takes a ghost `horizon` year: the caller must name a year by which
  the balance has depleted. `Recurrence.NoGrowthDepletes` supplies such a year when the
  rate is at most zero. The result is the first depletion year, and nothing is invented
  for inputs that never deplete.
- **Rounding.** `Math.round` rounds halves towards positive infinity. The model
  follows the code, not rounding halves away from zero.
  Beyond the range of `long` the rounded result saturates at `Long.MAX_VALUE` cents
  (`Withdrawal.RoundToCents`). The model keeps that behaviour.

## Model

| member | source | states |
|---|---|---|
| `RetirementSimulator.FixedInvestor` | RetirementPlan/src/model/RetirementSimulator.java:24-47 | Principal, years and rate are checked in that order: negative principal, negative years, rate <= -1. Otherwise the result is principal * (1 + rate)^years, is non-negative, and is exactly the principal when years is 0. |
| `RetirementSimulator.VariableInvestor` | RetirementPlan/src/model/RetirementSimulator.java:57-79 | It fails for a negative principal, then for an empty series. It then fails if ANY rate is <= -1, even after earlier rates were applied. Otherwise the result is the principal times (1 + rates[i]) for each i, in index order. |
| `Recurrence.CompoundConstant` | RetirementPlan/src/model/RetirementSimulator.java:65-78 | A series of n equal rates r compounds to principal * (1 + r)^n, so for n >= 1 variableInvestor on n copies of r equals fixedInvestor with r and n (with no rates variableInvestor fails instead). |
| `RetirementSimulator.FinallyRetired` | RetirementPlan/src/model/RetirementSimulator.java:93-138 | It fails for a negative balance, then a non-positive withdrawal, then a rate <= -1. Otherwise the count is the FIRST year n whose balance is <= 0: every earlier year's balance is > 0. The count is 0 exactly when the starting balance is 0. The returned int is n wrapped to 32 bits. |
| `RetirementSimulator.DepletionExample` | RetirementPlan/src/model/RetirementSimulator.java:109-137 | 100000 at 5% with 10000 withdrawn yearly first runs out in year 15, so finallyRetired answers 15. |
| `Recurrence.NoGrowthDepletes` | RetirementPlan/src/model/RetirementSimulator.java:117-136 | At a rate in (-1, 0] with a positive withdrawal w, the balance is exhausted by every year n with n * w >= balance, so the loop ends. |
| `Recurrence.InterestCoversWithdrawal` | RetirementPlan/src/model/RetirementSimulator.java:117-136 | When a year's interest on a positive balance covers the withdrawal, the balance never drops below its start, so the loop never ends. |
| `Recurrence.BalanceFalls` | RetirementPlan/src/model/RetirementSimulator.java:117-136 | When the withdrawal exceeds a year's interest on the starting balance, every later year ends with less than every earlier year. |
| `RetirementSimulator.MaximumExpensed` | RetirementPlan/src/model/RetirementSimulator.java:162-218 | A principal <= 0 answers 0 before years is checked, so (0, r, 0) gives 0. Otherwise years <= 0, then rate <= -1, are errors. For valid input the answer is the optimiser's result, and it is never negative. |
| `RetirementSimulator.MaximumExpensedDefault` | RetirementPlan/src/model/RetirementSimulator.java:143-145 | It equals maximumExpensed with a 30-year horizon, guards included. |
| `Finance.MaximumExpensed` | RetirementPlan/Finance.java:19-59 | It answers 0 with no error whenever the balance or the years are <= 0, and it never checks the rate. Otherwise the answer is the same optimiser result that RetirementSimulator.MaximumExpensed gives for valid input. The answer is never negative. |
| `Finance.MaximumExpensedDefault` | RetirementPlan/Finance.java:6-8 | It equals the three-argument call with years = 30. |
| `Finance.UncheckedRateMissesTarget` | RetirementPlan/Finance.java:20 | With the rate unchecked, balance 1 at -300% over 2 years ends at exactly 4 + E for every withdrawal E, so it rises with E and no E >= 0 brings it near 0. |
| `Finance.UncheckedAnswerLeavesFour` | RetirementPlan/Finance.java:19-59 | For that input the answer Finance returns is non-negative, so withdrawing it leaves at least 4 instead of about 0. |
| `Withdrawal.EndBalance` | RetirementPlan/Finance.java:26-32 | The lambda's loop computes the balance after `years` applications of B <- B * (1 + rate) - E. |
| `Recurrence.EndBalClosedForm` | RetirementPlan/Finance.java:26-32 | That balance is balance * (1 + rate)^n - E * GeomSum(1 + rate, n), where GeomSum(x, n) is 1 + x + ... + x^(n-1) (`Recurrence.GeomSumIsSum`). |
| `Recurrence.EndBalAntitone` | RetirementPlan/src/model/RetirementSimulator.java:184-190 | For a rate > -1 the ending balance is non-increasing in the withdrawal. After at least one year it falls by at least the increase in the withdrawal, so it is strictly decreasing. |
| `Withdrawal.InitialHi` | RetirementPlan/Finance.java:36 | The first upper end is the balance when the rate is <= 0, otherwise balance * (1 + rate)^years. It is positive for a positive balance. |
| `Withdrawal.Expand` | RetirementPlan/Finance.java:37-39 | The widening terminates. Its result is at least the positive initial hi. Withdrawing it leaves a balance <= 0, or it is at least 1e18. |
| `Withdrawal.WidenBracket` | RetirementPlan/Finance.java:34-39 | The doubling loop computes Expand from the initial hi. |
| `Withdrawal.InitialHiDepletes` | RetirementPlan/src/model/RetirementSimulator.java:192-200 | For a positive principal, positive years and a rate > -1, withdrawing the first upper end leaves <= 0, so the widening loop does not run. |
| `Withdrawal.Bisection` | RetirementPlan/Finance.java:41-58 | The 200-step loop with its early return computes the rounded answer of Bisect on [0, hi]. |
| `Withdrawal.BisectBracket` | RetirementPlan/Finance.java:42-56 | For any rate, an early exit is at a midpoint inside the bracket with abs(endBalance(mid)) <= 0.01. Otherwise lo <= hi is kept inside the first bracket. lo moved only where the ending balance was > 0.01, and hi only where it was < -0.01. |
| `Withdrawal.BisectWidth` | RetirementPlan/src/model/RetirementSimulator.java:203-215 | Each step halves the bracket, so a bracket that survives k steps has the first width halved k times (`Halved`); `Withdrawal.HalvedTimesPow` shows that is the width divided by 2^k. |
| `Withdrawal.HalvedTimesPow` | RetirementPlan/src/model/RetirementSimulator.java:203-215 | A width halved k times, multiplied by 2^k, gives the width back. |
| `Withdrawal.FindWithdrawal` | RetirementPlan/src/model/RetirementSimulator.java:180-217 | The initial hi, widening, bisection and rounding together compute OptimalWithdrawal, which is non-negative. |
| `Withdrawal.OptimalWithdrawalNonNegative` | RetirementPlan/src/model/RetirementSimulator.java:203-217 | The optimiser never answers a negative withdrawal, whatever the rate. |
| `Withdrawal.SearchOutcome` | RetirementPlan/src/model/RetirementSimulator.java:192-217 | For validated inputs the search runs on [0, initial hi], and the unrounded answer lies in it. An early exit meets the one-cent tolerance. After 200 steps the final bracket holds the root: money is left at lo and none at hi. Its width is the first one halved 200 times, with no tolerance promised. |
| `Withdrawal.NoGrowthExample` | RetirementPlan/src/model/RetirementSimulator.java:162-218 | With a zero rate, 100000 over 10 years answers exactly 10000.00, and withdrawing that leaves exactly 0. |
| `Withdrawal.RoundToCents` | RetirementPlan/src/model/RetirementSimulator.java:221-223 | Within the range of long, roundToCents gives a whole number of cents with x - 0.005 < result <= x + 0.005, that is round-half-up. Beyond that range the result is Long.MAX_VALUE / 100, at least half a cent below x. A non-negative amount rounds to a non-negative amount. |
| `JavaArith.MathRound` | RetirementPlan/src/model/RetirementSimulator.java:222 | Math.round gives a long. Inside the range it is the integer n with y - 0.5 < n <= y + 0.5. |
| `JavaArith.WrapInt32` | RetirementPlan/src/model/RetirementSimulator.java:110-130 | The value an int counter holds after n increments lies in the int range and equals n while n fits. |
| `JavaArith.IncInt32` | RetirementPlan/src/model/RetirementSimulator.java:130 | `duration++` stays in the int range and adds one below Integer.MAX_VALUE. |

## Findings

| source | as written | input that shows it | evidently intended | confidence | as-written member | corrected member |
|---|---|---|---|---|---|---|
| RetirementPlan/Finance.java:20 | only the balance and the years are checked; a rate at or below -100% goes into the search | balance 1, rate -3.0, years 2: the ending balance is 4 + E, rising with E, so the answer E leaves at least 4 instead of about 0 | reject a rate <= -1, as the later copy does at RetirementPlan/src/model/RetirementSimulator.java:176-178 | high that the behaviour is as stated; medium on intent; not executed | `Finance.UncheckedRateMissesTarget` | `RetirementSimulator.MaximumExpensed` |

## Left out

- IEEE-754 doubles are replaced by exact reals, so rounding error is not modelled.
- The NaN and infinity checks (RetirementSimulator.java:71-73, 163-168) are true of no real and are dropped.
- `Math.pow` is replaced by the recursive `Pow`, and the float meaning of the 1e18 cap is not modelled.
- A `null` rates array cannot be expressed as a `seq`. The null-or-empty check becomes the empty check.
- Exception messages are not modelled. Each failure is one constructor of `Outcomes.Invalid`.
- Java `int` parameters are unbounded `int`s. Their loops cannot overflow, because the counters stop at the parameter. Only the `finallyRetired` counter is wrapped to 32 bits.
- RetirementSimulator.FinallyRetired: the Java loop runs forever on inputs that never deplete. The model admits only calls naming a depletion year (the ghost `horizon`), so it says nothing about non-terminating calls.
- Withdrawal.SearchOutcome: the 200-step fallback comes with no promise that the ending balance meets the one-cent tolerance, and none is proved.
- RetirementPlan/src/gui/RetirementSimulatorGUI.java is not part of this model. It parses text fields, calls the model and formats the results.
