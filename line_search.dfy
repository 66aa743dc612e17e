/**
 * The three line searches of the Newton engine as functions of the
 * residual curve r(alpha): the residual of F at x - alpha * dx.  The class
 * in JFNKSolver runs them as loops and is proved to compute these.
 */
module LineSearch {
  import opened FloatModel

  /** The member-function selector lineSearch: which of the three searches update runs. */
  datatype Strategy = None | Linear | Bisect

  /** What a line search hands back: the step scale alpha and the residual it records. */
  datatype Pick = Pick(alpha: real, residual: Float)

  /** The residual curve never yields NaN (residualAtAlpha replaces NaN by the largest double). */
  ghost predicate NeverNaN(r: real -> Float)
  {
    forall a :: !r(a).NaN?
  }

  /** The search update runs: the full step, evenly spaced samples, or bisection. */
  function Search(kind: Strategy, r: real -> Float, maxAlpha: real, maxIter: int): Pick
  {
    match kind
    case None => Pick(maxAlpha, r(maxAlpha))
    case Linear => LinearSearch(r, maxAlpha, maxIter)
    case Bisect => BisectSearch(r, maxAlpha, maxIter, false)
  }

  /**
   * Whatever the strategy, a nonzero alpha comes back with the residual of
   * the curve at that alpha, so the residual recorded by update is the one
   * of the point it moves to.
   */
  lemma SearchResidualAtAlpha(kind: Strategy, r: real -> Float, maxAlpha: real, maxIter: int)
    requires NeverNaN(r)
    ensures var p := Search(kind, r, maxAlpha, maxIter);
            p.alpha != 0.0 ==> p.residual == r(p.alpha)
  {
    match kind
    case None =>
    case Linear =>
      var k := LinearPicksFirst(r, maxAlpha, maxIter);
    case Bisect =>
      BisectResidualAtAlpha(r, maxAlpha, maxIter, false);
  }

  /*---------------------------------------------------------------------
   * lineSearch_linear
   *-------------------------------------------------------------------*/

  /**
   * Sample i of lineSearch_linear: maxAlpha * i / maxIter.  With maxIter = 0
   * the source divides 0 by 0; the model samples alpha = 0 there.
   */
  function SampleAlpha(maxAlpha: real, maxIter: int, i: int): real
  {
    if maxIter == 0 then 0.0 else maxAlpha * (i as real) / (maxIter as real)
  }

  /** The scan of lineSearch_linear from sample i on, holding the best pick so far. */
  function LinearFrom(r: real -> Float, maxAlpha: real, maxIter: int, i: int, best: Pick): Pick
    decreases maxIter + 1 - i
  {
    if i > maxIter then best
    else
      var a := SampleAlpha(maxAlpha, maxIter, i);
      LinearFrom(r, maxAlpha, maxIter, i + 1, if Lt(r(a), best.residual) then Pick(a, r(a)) else best)
  }

  /** lineSearch_linear: the scan of samples 0 .. maxIter, starting from alpha 0 and the largest double. */
  function LinearSearch(r: real -> Float, maxAlpha: real, maxIter: int): Pick
  {
    LinearFrom(r, maxAlpha, maxIter, 0, Pick(0.0, Num(DblMax)))
  }

  /**
   * From sample i on, the scan either keeps its best pick (k = -1) or ends on
   * the first sample k that attains the minimum, strictly below the pick
   * it started with; no sample in [i, maxIter] is strictly better than the end result.
   */
  lemma {:induction false} LinearFromPicks(r: real -> Float, maxAlpha: real, maxIter: int, i: int, best: Pick)
    returns (k: int)
    requires 0 <= i && NeverNaN(r) && !best.residual.NaN?
    ensures var p := LinearFrom(r, maxAlpha, maxIter, i, best);
            (k == -1 && p == best) ||
            (i <= k <= maxIter && p == Pick(SampleAlpha(maxAlpha, maxIter, k), r(SampleAlpha(maxAlpha, maxIter, k))) &&
             Lt(p.residual, best.residual) &&
             forall j :: i <= j < k ==> Lt(p.residual, r(SampleAlpha(maxAlpha, maxIter, j))))
    ensures var p := LinearFrom(r, maxAlpha, maxIter, i, best);
            forall j :: i <= j <= maxIter ==> !Lt(r(SampleAlpha(maxAlpha, maxIter, j)), p.residual)
    decreases maxIter + 1 - i
  {
    if i > maxIter {
      k := -1;
    } else {
      var a := SampleAlpha(maxAlpha, maxIter, i);
      var next := if Lt(r(a), best.residual) then Pick(a, r(a)) else best;
      var p := LinearFrom(r, maxAlpha, maxIter, i + 1, next);
      assert p == LinearFrom(r, maxAlpha, maxIter, i, best);
      var k' := LinearFromPicks(r, maxAlpha, maxIter, i + 1, next);
      Trichotomy(r(a), best.residual);
      if Lt(r(a), best.residual) {
        if k' == -1 {
          k := i;
        } else {
          k := k';
          LtTransitive(p.residual, r(a), best.residual);
        }
      } else {
        k := k';
        if k' != -1 {
          LtThenNotAbove(p.residual, best.residual, r(a));
        }
      }
      if k != -1 {
        assert forall j :: i <= j < k ==> Lt(p.residual, r(SampleAlpha(maxAlpha, maxIter, j))) by {
          forall j | i <= j < k
            ensures Lt(p.residual, r(SampleAlpha(maxAlpha, maxIter, j)))
          {
            if j == i {
              assert SampleAlpha(maxAlpha, maxIter, j) == a;
            }
          }
        }
      }
    }
  }

  /**
   * lineSearch_linear returns the first sample that attains the strict
   * minimum of the samples, together with its residual; if no sample beats
   * the largest double it returns alpha 0 with the largest double.
   */
  lemma LinearPicksFirst(r: real -> Float, maxAlpha: real, maxIter: int) returns (k: int)
    requires NeverNaN(r)
    ensures var p := LinearSearch(r, maxAlpha, maxIter);
            (k == -1 && p == Pick(0.0, Num(DblMax)) &&
             forall j :: 0 <= j <= maxIter ==> !Lt(r(SampleAlpha(maxAlpha, maxIter, j)), Num(DblMax))) ||
            (0 <= k <= maxIter && p == Pick(SampleAlpha(maxAlpha, maxIter, k), r(SampleAlpha(maxAlpha, maxIter, k))) &&
             Lt(p.residual, Num(DblMax)) &&
             forall j :: 0 <= j < k ==> Lt(p.residual, r(SampleAlpha(maxAlpha, maxIter, j))))
    ensures var p := LinearSearch(r, maxAlpha, maxIter);
            forall j :: 0 <= j <= maxIter ==> !Lt(r(SampleAlpha(maxAlpha, maxIter, j)), p.residual)
  {
    k := LinearFromPicks(r, maxAlpha, maxIter, 0, Pick(0.0, Num(DblMax)));
  }

  /*---------------------------------------------------------------------
   * lineSearch_bisect
   *-------------------------------------------------------------------*/

  /** The bisection state: both ends of the bracket and their residuals. */
  datatype Bracket = Bracket(alphaL: real, alphaR: real, residualL: Float, residualR: Float)

  /** What a round of bisection does: stop the loop, or go on with a new bracket. */
  datatype Outcome = Stop | Next(b: Bracket)

  /** The midpoint of the bracket. */
  function Mid(b: Bracket): real
  {
    0.5 * (b.alphaL + b.alphaR)
  }

  /**
   * One round of lineSearch_bisect as written: stop when the midpoint is
   * strictly worse than both ends; if it is strictly better than both,
   * replace the right end when residualL <= residualR and the left end
   * otherwise; if it is better than the left end only, replace the left end;
   * in every other case replace the right end.
   */
  function RoundAsWritten(r: real -> Float, b: Bracket): (next: Outcome)
    ensures next.Next? ==>
              next.b == b.(alphaL := Mid(b), residualL := r(Mid(b))) ||
              next.b == b.(alphaR := Mid(b), residualR := r(Mid(b)))
  {
    var mid := Mid(b);
    var rm := r(mid);
    if Lt(b.residualL, rm) && Lt(b.residualR, rm) then Stop
    else if Lt(rm, b.residualL) && Lt(rm, b.residualR) then
      if Le(b.residualL, b.residualR) then Next(b.(alphaR := mid, residualR := rm))
      else Next(b.(alphaL := mid, residualL := rm))
    else if Lt(rm, b.residualL) then Next(b.(alphaL := mid, residualL := rm))
    else Next(b.(alphaR := mid, residualR := rm))
  }

  /**
   * One round of bisection: as written when corrected is false, and with the
   * stopping test corrected to residualMid >= residualL && residualMid >
   * residualR when it is true, so that a midpoint that ties the left end and
   * is worse than the right end no longer replaces the right end.
   */
  function Round(r: real -> Float, b: Bracket, corrected: bool): Outcome
  {
    if corrected && Le(b.residualL, r(Mid(b))) && Lt(b.residualR, r(Mid(b))) then Stop
    else RoundAsWritten(r, b)
  }

  /** At most k rounds of bisection, stopping early when a round says so. */
  function Rounds(r: real -> Float, b: Bracket, k: int, corrected: bool): Bracket
    decreases k
  {
    if k <= 0 then b
    else
      match Round(r, b, corrected)
      case Stop => b
      case Next(b') => Rounds(r, b', k - 1, corrected)
  }

  /** One round of the bisection loop: a stop ends the rounds where they are, a next bracket continues with one round fewer. */
  lemma RoundsStep(r: real -> Float, b: Bracket, k: int, corrected: bool)
    requires k > 0
    ensures Round(r, b, corrected).Stop? ==> Rounds(r, b, k, corrected) == b
    ensures Round(r, b, corrected).Next? ==> Rounds(r, b, k, corrected) == Rounds(r, Round(r, b, corrected).b, k - 1, corrected)
  {
  }

  /** The end of lineSearch_bisect: alphaL only when residualL < residualR, with fmin of the two residuals. */
  function Finish(b: Bracket): Pick
  {
    Pick(if Lt(b.residualL, b.residualR) then b.alphaL else b.alphaR, Fmin(b.residualL, b.residualR))
  }

  /**
   * Away from NaN the end of the bisection records the residual of the end it
   * returns, and that residual is the smaller of the two; ties go to the right end.
   */
  lemma FinishPicksEnd(b: Bracket)
    requires !b.residualL.NaN? && !b.residualR.NaN?
    ensures var p := Finish(b);
            (Lt(b.residualL, b.residualR) && p == Pick(b.alphaL, b.residualL)) ||
            (!Lt(b.residualL, b.residualR) && p == Pick(b.alphaR, b.residualR) && Le(b.residualR, b.residualL))
  {
    Trichotomy(b.residualL, b.residualR);
  }

  /** The starting bracket: [0, maxAlpha] with the residuals at both ends. */
  function StartBracket(r: real -> Float, maxAlpha: real): Bracket
  {
    Bracket(0.0, maxAlpha, r(0.0), r(maxAlpha))
  }

  /** lineSearch_bisect, as written (corrected = false) or with the corrected stopping test. */
  function BisectSearch(r: real -> Float, maxAlpha: real, maxIter: int, corrected: bool): Pick
  {
    Finish(Rounds(r, StartBracket(r, maxAlpha), maxIter, corrected))
  }

  /** alpha lies between 0 and maxAlpha, whatever the sign of maxAlpha. */
  predicate Within(alpha: real, maxAlpha: real)
  {
    (0.0 <= alpha <= maxAlpha) || (maxAlpha <= alpha <= 0.0)
  }

  /**
   * The bracket invariant: both ends lie between 0 and maxAlpha, in order
   * when maxAlpha >= 0, and each end's residual is the curve's value there.
   */
  predicate Bracketed(r: real -> Float, b: Bracket, maxAlpha: real)
  {
    Within(b.alphaL, maxAlpha) && Within(b.alphaR, maxAlpha) && (0.0 <= maxAlpha ==> b.alphaL <= b.alphaR) &&
    b.residualL == r(b.alphaL) && b.residualR == r(b.alphaR)
  }

  /** Every round keeps the bracket invariant. */
  lemma RoundKeepsBracket(r: real -> Float, b: Bracket, maxAlpha: real, corrected: bool)
    requires Bracketed(r, b, maxAlpha)
    ensures Round(r, b, corrected).Next? ==> Bracketed(r, Round(r, b, corrected).b, maxAlpha)
  {
    assert Within(Mid(b), maxAlpha);
    assert 0.0 <= maxAlpha ==> b.alphaL <= Mid(b) <= b.alphaR;
  }

  /** Any number of rounds keeps the bracket invariant. */
  lemma {:induction false} RoundsKeepBracket(r: real -> Float, b: Bracket, k: int, maxAlpha: real, corrected: bool)
    requires Bracketed(r, b, maxAlpha)
    ensures Bracketed(r, Rounds(r, b, k, corrected), maxAlpha)
    decreases k
  {
    if k > 0 {
      RoundKeepsBracket(r, b, maxAlpha, corrected);
      if Round(r, b, corrected).Next? {
        RoundsKeepBracket(r, Round(r, b, corrected).b, k - 1, maxAlpha, corrected);
      }
    }
  }

  /**
   * lineSearch_bisect returns an alpha between 0 and maxAlpha and records
   * the curve's residual at that alpha; the left end is returned only when
   * its residual is strictly below the right end's, so ties go to the right end.
   */
  lemma BisectResidualAtAlpha(r: real -> Float, maxAlpha: real, maxIter: int, corrected: bool)
    requires NeverNaN(r)
    ensures var b := Rounds(r, StartBracket(r, maxAlpha), maxIter, corrected);
            var p := BisectSearch(r, maxAlpha, maxIter, corrected);
            Within(p.alpha, maxAlpha) && (0.0 <= maxAlpha ==> 0.0 <= b.alphaL <= b.alphaR <= maxAlpha) &&
            p.residual == r(p.alpha) &&
            (p.alpha == b.alphaL <== Lt(b.residualL, b.residualR)) &&
            (p.alpha == b.alphaR <== !Lt(b.residualL, b.residualR))
  {
    var b := Rounds(r, StartBracket(r, maxAlpha), maxIter, corrected);
    RoundsKeepBracket(r, StartBracket(r, maxAlpha), maxIter, maxAlpha, corrected);
    Trichotomy(b.residualL, b.residualR);
  }

  /** The best residual held by the bracket. */
  function Best(b: Bracket): Float
  {
    Fmin(b.residualL, b.residualR)
  }

  /** With the corrected stopping test no round makes the best residual of the bracket worse. */
  lemma RoundKeepsBest(r: real -> Float, b: Bracket)
    requires NeverNaN(r) && !b.residualL.NaN? && !b.residualR.NaN?
    ensures Round(r, b, true).Next? ==> Le(Best(Round(r, b, true).b), Best(b))
  {
    var rm := r(Mid(b));
    Trichotomy(b.residualL, rm);
    Trichotomy(b.residualR, rm);
    Trichotomy(b.residualL, b.residualR);
  }

  lemma {:induction false} RoundsKeepBest(r: real -> Float, b: Bracket, k: int)
    requires NeverNaN(r) && !b.residualL.NaN? && !b.residualR.NaN?
    ensures var b' := Rounds(r, b, k, true);
            Le(Best(b'), Best(b)) && !b'.residualL.NaN? && !b'.residualR.NaN?
    decreases k
  {
    if k > 0 && Round(r, b, true).Next? {
      var b1 := Round(r, b, true).b;
      RoundKeepsBest(r, b);
      RoundsKeepBest(r, b1, k - 1);
      LeTransitive(Best(Rounds(r, b1, k - 1, true)), Best(b1), Best(b));
    } else {
      Trichotomy(b.residualL, b.residualR);
    }
  }

  /**
   * The corrected bisection never ends worse than the better of its two
   * starting points: the recorded residual is at most min(r(0), r(maxAlpha)).
   */
  lemma BisectNeverWorse(r: real -> Float, maxAlpha: real, maxIter: int)
    requires NeverNaN(r)
    ensures Le(BisectSearch(r, maxAlpha, maxIter, true).residual, Fmin(r(0.0), r(maxAlpha)))
  {
    RoundsKeepBest(r, StartBracket(r, maxAlpha), maxIter);
  }

  /**
   * As written, bisection can end worse than it started: with r(1) = 3, every
   * other residual 5, maxAlpha = 1 and one round, the midpoint ties the left
   * end, is worse than the right end, and replaces it, so the search records
   * 5 although r(maxAlpha) = 3.
   */
  lemma BisectAsWrittenLosesBest()
    ensures var r := (a: real) => if a == 1.0 then Num(3.0) else Num(5.0);
            BisectSearch(r, 1.0, 1, false) == Pick(0.5, Num(5.0)) &&
            Lt(r(1.0), BisectSearch(r, 1.0, 1, false).residual) &&
            BisectSearch(r, 1.0, 1, true) == Pick(1.0, Num(3.0))
  {
    var r := (a: real) => if a == 1.0 then Num(3.0) else Num(5.0);
    var b0 := StartBracket(r, 1.0);
    assert Mid(b0) == 0.5;
    var b1 := Bracket(0.0, 0.5, Num(5.0), Num(5.0));
    assert Round(r, b0, false) == Next(b1);
    assert Rounds(r, b1, 0, false) == b1;
    assert Round(r, b0, true) == Stop;
  }
}
