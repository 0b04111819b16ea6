/** The maximum-withdrawal optimiser shared by both maximumExpensed implementations:
    widen a bracket [0, hi] until withdrawing hi depletes the balance, bisect it for at
    most 200 steps, stop early once the ending balance is within one cent of zero, and
    round the answer to cents. The specification functions describe the search step by
    step; the methods run the loops and are proved to compute them. */
module Withdrawal {
  import opened Recurrence
  import opened JavaArith

  /** Tolerance on the ending balance: one cent. */
  const Tol: real := 0.01
  /** Number of bisection steps. */
  const MaxIters: nat := 200
  /** The bracket is not widened beyond this bound. */
  const Cap: real := 1_000_000_000_000_000_000.0

  function Abs(x: real): real
  {
    if x < 0.0 then -x else x
  }

  /** Rounds to a whole number of cents with Math.round. Inside the range of long the
      result is a whole number of cents at most half a cent from x, with halves going
      up (x - 0.005 < c <= x + 0.005); beyond it Math.round saturates, so the result
      is Long.MAX_VALUE cents, at least half a cent below x. A non-negative amount
      stays non-negative. */
  function RoundToCents(x: real): (c: real)
    ensures LongMin as real <= x * 100.0 + 0.5 < LongMax as real + 1.0 ==>
      (c * 100.0).Floor as real == c * 100.0 && x - 0.005 < c <= x + 0.005
    ensures x * 100.0 + 0.5 >= LongMax as real + 1.0 ==> c == LongMax as real / 100.0 && c <= x - 0.005
    ensures x >= 0.0 ==> c >= 0.0
  {
    var n := MathRound(x * 100.0);
    assert n as real / 100.0 * 100.0 == n as real;
    n as real / 100.0
  }

  /** The first upper end of the bracket: the principal when the rate does not grow
      it, otherwise the principal compounded over the horizon. */
  function InitialHi(principal: real, rate: real, years: nat): (hi: real)
    requires principal > 0.0
    ensures hi > 0.0
  {
    if rate <= 0.0 then principal
    else
      PowPositive(1.0 + rate, years);
      principal * Pow(1.0 + rate, years)
  }

  lemma HalvingMeasure(hi: real)
    requires 0.0 < hi < Cap
    ensures 2.0 * Cap / (hi * 2.0) <= 2.0 * Cap / hi - 1.0
  {
    var m := 2.0 * Cap / hi;
    assert m * hi == 2.0 * Cap;
    assert m > 2.0;
    assert 2.0 * Cap / (hi * 2.0) == m / 2.0;
  }

  /** The widening phase: double hi while withdrawing hi still leaves money and hi is
      below the cap. It never shrinks hi and stops only when withdrawing hi depletes
      the balance or hi has reached the cap. */
  function Expand(principal: real, rate: real, years: nat, hi: real): (h: real)
    requires hi > 0.0
    ensures h >= hi
    ensures EndBal(principal, rate, h, years) <= 0.0 || h >= Cap
    decreases 2.0 * Cap / hi
  {
    if EndBal(principal, rate, hi, years) > 0.0 && hi < Cap then
      HalvingMeasure(hi);
      Expand(principal, rate, years, hi * 2.0)
    else hi
  }

  /** How the bisection phase ends: by meeting the tolerance at a midpoint, or by
      running out of steps with a final bracket. */
  datatype Outcome = Converged(mid: real) | Exhausted(lo: real, hi: real)

  /** The bisection phase with k steps left on the bracket [lo, hi]. */
  function Bisect(principal: real, rate: real, years: nat, lo: real, hi: real, k: nat): Outcome
    decreases k
  {
    if k == 0 then Exhausted(lo, hi)
    else
      var mid := 0.5 * (lo + hi);
      var eb := EndBal(principal, rate, mid, years);
      if Abs(eb) <= Tol then Converged(mid)
      else if eb > 0.0 then Bisect(principal, rate, years, mid, hi, k - 1)
      else Bisect(principal, rate, years, lo, mid, k - 1)
  }

  /** The unrounded answer: the converged midpoint, or the midpoint of the final bracket. */
  function Answer(o: Outcome): real
  {
    match o
    case Converged(mid) => mid
    case Exhausted(lo, hi) => 0.5 * (lo + hi)
  }

  /** The whole search for a positive principal. */
  function OptimalWithdrawal(principal: real, rate: real, years: nat): real
    requires principal > 0.0
  {
    var hi := Expand(principal, rate, years, InitialHi(principal, rate, years));
    RoundToCents(Answer(Bisect(principal, rate, years, 0.0, hi, MaxIters)))
  }

  /** The ending balance after `years` years of withdrawing `withdrawal` each year. */
  method EndBalance(principal: real, rate: real, years: nat, withdrawal: real) returns (b: real)
    ensures b == EndBal(principal, rate, withdrawal, years)
  {
    b := principal;
    for i := 0 to years
      invariant b == EndBal(principal, rate, withdrawal, i)
    {
      b := b * (1.0 + rate) - withdrawal;
    }
  }

  /** The widening loop. */
  method WidenBracket(principal: real, rate: real, years: nat, hi0: real) returns (hi: real)
    requires hi0 > 0.0
    ensures hi == Expand(principal, rate, years, hi0)
  {
    hi := hi0;
    var eb := EndBalance(principal, rate, years, hi);
    while eb > 0.0 && hi < Cap
      invariant hi > 0.0
      invariant eb == EndBal(principal, rate, hi, years)
      invariant Expand(principal, rate, years, hi) == Expand(principal, rate, years, hi0)
      decreases 2.0 * Cap / hi
    {
      HalvingMeasure(hi);
      hi := hi * 2.0;
      eb := EndBalance(principal, rate, years, hi);
    }
  }

  /** The bisection loop on [0, hi0], with its early return. */
  method Bisection(principal: real, rate: real, years: nat, hi0: real) returns (w: real)
    ensures w == RoundToCents(Answer(Bisect(principal, rate, years, 0.0, hi0, MaxIters)))
  {
    var lo, hi := 0.0, hi0;
    var it := 0;
    while it < MaxIters
      invariant 0 <= it <= MaxIters
      invariant Bisect(principal, rate, years, lo, hi, MaxIters - it) == Bisect(principal, rate, years, 0.0, hi0, MaxIters)
    {
      var mid := 0.5 * (lo + hi);
      var eb := EndBalance(principal, rate, years, mid);
      if Abs(eb) <= Tol {
        return RoundToCents(mid);
      }
      if eb > 0.0 {
        lo := mid;
      } else {
        hi := mid;
      }
      it := it + 1;
    }
    w := RoundToCents(0.5 * (lo + hi));
  }

  /** The whole search: first bracket end, widening, bisection, rounding. */
  method FindWithdrawal(principal: real, rate: real, years: nat) returns (w: real)
    requires principal > 0.0
    ensures w == OptimalWithdrawal(principal, rate, years)
    ensures w >= 0.0
  {
    if rate > 0.0 {
      PowPositive(1.0 + rate, years);
    }
    var hi := if rate <= 0.0 then principal else principal * Pow(1.0 + rate, years);
    hi := WidenBracket(principal, rate, years, hi);
    w := Bisection(principal, rate, years, hi);
    OptimalWithdrawalNonNegative(principal, rate, years);
  }

  /** What the bisection phase guarantees on any bracket, for any rate: a converged
      midpoint lies in the bracket and meets the tolerance; otherwise the final
      bracket lies inside the first and each of its ends either is the original end
      or was moved there because the ending balance had the matching sign beyond
      the tolerance. */
  lemma {:induction false} BisectBracket(principal: real, rate: real, years: nat, lo: real, hi: real, k: nat)
    requires lo <= hi
    ensures match Bisect(principal, rate, years, lo, hi, k)
      case Converged(mid) =>
        lo <= mid <= hi && Abs(EndBal(principal, rate, mid, years)) <= Tol
      case Exhausted(l, h) =>
        && lo <= l <= h <= hi
        && (l == lo || EndBal(principal, rate, l, years) > Tol)
        && (h == hi || EndBal(principal, rate, h, years) < -Tol)
    decreases k
  {
    if k > 0 {
      var mid := 0.5 * (lo + hi);
      var eb := EndBal(principal, rate, mid, years);
      if Abs(eb) > Tol {
        if eb > 0.0 {
          BisectBracket(principal, rate, years, mid, hi, k - 1);
        } else {
          BisectBracket(principal, rate, years, lo, mid, k - 1);
        }
      }
    }
  }

  /** The width d halved k times. */
  function Halved(d: real, k: nat): real
    decreases k
  {
    if k == 0 then d else Halved(0.5 * d, k - 1)
  }

  /** Halving k times is dividing by 2^k. */
  lemma {:induction false} HalvedTimesPow(d: real, k: nat)
    ensures Halved(d, k) * Pow(2.0, k) == d
    decreases k
  {
    if k > 0 {
      HalvedTimesPow(0.5 * d, k - 1);
      DoubleHalf(Halved(0.5 * d, k - 1), Pow(2.0, k - 1), d);
    }
  }

  lemma DoubleHalf(h: real, q: real, d: real)
    requires h * q == 0.5 * d
    ensures h * (q * 2.0) == d
  {
  }

  /** Each step halves the bracket: a bracket that survives all k steps is the
      starting one halved k times. */
  lemma {:induction false} BisectWidth(principal: real, rate: real, years: nat, lo: real, hi: real, k: nat)
    ensures var o := Bisect(principal, rate, years, lo, hi, k);
      o.Exhausted? ==> o.hi - o.lo == Halved(hi - lo, k)
    decreases k
  {
    if k > 0 {
      var mid := 0.5 * (lo + hi);
      var eb := EndBal(principal, rate, mid, years);
      if Abs(eb) > Tol {
        if eb > 0.0 {
          BisectWidth(principal, rate, years, mid, hi, k - 1);
          assert hi - mid == 0.5 * (hi - lo);
        } else {
          BisectWidth(principal, rate, years, lo, mid, k - 1);
          assert mid - lo == 0.5 * (hi - lo);
        }
      }
    }
  }

  /** The search never answers a negative withdrawal. */
  lemma OptimalWithdrawalNonNegative(principal: real, rate: real, years: nat)
    requires principal > 0.0
    ensures OptimalWithdrawal(principal, rate, years) >= 0.0
  {
    var hi := Expand(principal, rate, years, InitialHi(principal, rate, years));
    BisectBracket(principal, rate, years, 0.0, hi, MaxIters);
  }

  /** With a rate above -100% and at least one year, withdrawing the first upper end
      already depletes the balance, so the widening loop never runs. */
  lemma InitialHiDepletes(principal: real, rate: real, years: nat)
    requires principal > 0.0 && years > 0 && rate > -1.0
    ensures EndBal(principal, rate, InitialHi(principal, rate, years), years) <= 0.0
    ensures Expand(principal, rate, years, InitialHi(principal, rate, years)) == InitialHi(principal, rate, years)
  {
    var x := 1.0 + rate;
    var hi := InitialHi(principal, rate, years);
    EndBalClosedForm(principal, rate, hi, years);
    GeomSumAtLeastOne(x, years);
    PowPositive(x, years);
    var p, g := Pow(x, years), GeomSum(x, years);
    if rate <= 0.0 {
      PowAtMostOne(x, years);
      assert principal * p <= principal * g;
    } else {
      assert hi * g >= hi;
    }
  }

  /** For validated inputs (positive principal and years, rate above -100%) the
      search starts from the bracket [0, InitialHi], in which withdrawing nothing
      leaves money and withdrawing the upper end does not. If it stops early, the
      unrounded midpoint has an ending balance within a cent of zero; otherwise the
      final bracket, 2^200 times narrower than the first, still has money left at
      its lower end and none at its upper end, so the root lies inside it. */
  lemma SearchOutcome(principal: real, rate: real, years: nat)
    requires principal > 0.0 && years > 0 && rate > -1.0
    ensures var hi0 := InitialHi(principal, rate, years);
      var o := Bisect(principal, rate, years, 0.0, Expand(principal, rate, years, hi0), MaxIters);
      && Expand(principal, rate, years, hi0) == hi0
      && 0.0 <= Answer(o) <= hi0
      && (o.Converged? ==> Abs(EndBal(principal, rate, o.mid, years)) <= Tol)
      && (o.Exhausted? ==>
            && EndBal(principal, rate, o.lo, years) > 0.0 >= EndBal(principal, rate, o.hi, years)
            && o.hi - o.lo == Halved(hi0, MaxIters))
  {
    var hi0 := InitialHi(principal, rate, years);
    InitialHiDepletes(principal, rate, years);
    BracketOutcome(principal, rate, years, hi0, MaxIters);
  }

  /** SearchOutcome for any number of steps, from a bracket [0, hi0] whose upper end
      depletes the balance. */
  lemma BracketOutcome(principal: real, rate: real, years: nat, hi0: real, k: nat)
    requires principal > 0.0 && rate > -1.0 && hi0 >= 0.0
    requires EndBal(principal, rate, hi0, years) <= 0.0
    ensures var o := Bisect(principal, rate, years, 0.0, hi0, k);
      && 0.0 <= Answer(o) <= hi0
      && (o.Converged? ==> Abs(EndBal(principal, rate, o.mid, years)) <= Tol)
      && (o.Exhausted? ==>
            && EndBal(principal, rate, o.lo, years) > 0.0 >= EndBal(principal, rate, o.hi, years)
            && o.hi - o.lo == Halved(hi0, k))
  {
    BisectBracket(principal, rate, years, 0.0, hi0, k);
    BisectWidth(principal, rate, years, 0.0, hi0, k);
    var o := Bisect(principal, rate, years, 0.0, hi0, k);
    if o.Exhausted? {
      ExhaustedSigns(principal, rate, years, hi0, o.lo, o.hi);
    }
  }

  /** The ends of an exhausted bracket either stayed where they started (no
      withdrawal keeps money, the first upper end depletes it) or moved to a
      withdrawal whose ending balance has that end's sign. */
  lemma ExhaustedSigns(principal: real, rate: real, years: nat, hi0: real, l: real, h: real)
    requires principal > 0.0 && rate > -1.0
    requires EndBal(principal, rate, hi0, years) <= 0.0
    requires l == 0.0 || EndBal(principal, rate, l, years) > Tol
    requires h == hi0 || EndBal(principal, rate, h, years) < -Tol
    ensures EndBal(principal, rate, l, years) > 0.0 >= EndBal(principal, rate, h, years)
  {
    if l == 0.0 {
      ZeroWithdrawal(principal, rate, years);
      PowPositive(1.0 + rate, years);
    }
  }

  /** With no growth, 100000 over 10 years sustains exactly 10000.00 a year, which
      then leaves nothing: whichever way the bisection ends, the unrounded answer is
      within a third of a cent of 10000 and rounds to it. (The amounts are
      parameters fixed by the requires so that the verifier does not try to
      evaluate the 200-step search on literals.) */
  lemma NoGrowthExample(p: real, n: nat)
    requires p == 100000.0 && n == 10
    ensures OptimalWithdrawal(p, 0.0, n) == 10000.0
    ensures EndBal(p, 0.0, 10000.0, n) == 0.0
  {
    SearchOutcome(p, 0.0, n);
    var o := Bisect(p, 0.0, n, 0.0, p, MaxIters);
    match o
    case Converged(mid) => ConvergedAtTenThousand(p, n, mid);
    case Exhausted(l, h) => ExhaustedAtTenThousand(p, n, l, h);
    ZeroRateEndBal(p, 10000.0, n);
  }

  lemma ConvergedAtTenThousand(p: real, n: nat, mid: real)
    requires p == 100000.0 && n == 10 && Abs(EndBal(p, 0.0, mid, n)) <= Tol
    ensures RoundToCents(mid) == 10000.0
  {
    ZeroRateEndBal(p, mid, n);
    RoundsToTenThousand(mid);
  }

  lemma ExhaustedAtTenThousand(p: real, n: nat, l: real, h: real)
    requires p == 100000.0 && n == 10
    requires EndBal(p, 0.0, l, n) > 0.0 >= EndBal(p, 0.0, h, n)
    requires h - l == Halved(p, MaxIters)
    ensures RoundToCents(0.5 * (l + h)) == 10000.0
  {
    ZeroRateEndBal(p, l, n);
    ZeroRateEndBal(p, h, n);
    PowTwoAtLeast();
    HalvedTimesPow(p, MaxIters);
    NarrowBracket(h - l, Pow(2.0, MaxIters), p);
    RoundsToTenThousand(0.5 * (l + h));
  }

  lemma PowTwoAtLeast()
    ensures Pow(2.0, MaxIters) >= 33554432.0
  {
    PowAdd(2.0, 10, 10);
    PowAdd(2.0, 20, 5);
    assert Pow(2.0, 10) == 1024.0 && Pow(2.0, 5) == 32.0;
    PowMonotone(2.0, 25, MaxIters);
  }

  lemma RoundsToTenThousand(m: real)
    requires 9999.996 <= m <= 10000.004
    ensures RoundToCents(m) == 10000.0
  {
    assert (m * 100.0 + 0.5).Floor == 1000000;
  }

  lemma NarrowBracket(d: real, scale: real, width: real)
    requires d >= 0.0 && scale >= 33554432.0 && d * scale == width
    ensures d * 33554432.0 <= width
  {
  }
}
