/**
 * The Jacobian-free Newton-Krylov engine after Knoll and Keyes (2003): an
 * object holding the caller's iterate x, six working buffers of size n and
 * the fields residual, alpha and iter.  The caller's function F, the vector
 * L2 norm and the stop callback are parameters of the model; the Krylov
 * solve is a step that may leave anything in dx.
 */
module JFNKSolver {
  import opened FloatModel
  import opened LineSearch
  import opened FiniteDifference
  import ColumnMajor

  /** calcResidual: normL2 of the vector divided by n. */
  function CalcResidual(normL2: seq<real> -> NormValue, n: nat, ys: seq<real>): Float
  {
    NormOverSize(normL2(ys), n)
  }

  /** The residual of F at xs as residualAtAlpha records it: calcResidual of F(xs), with NaN replaced by the largest double. */
  function Residual(F: seq<real> -> seq<real>, normL2: seq<real> -> NormValue, n: nat, xs: seq<real>): Float
  {
    Sanitise(CalcResidual(normL2, n, F(xs)))
  }

  /** The residual curve of a line search: alpha |-> the residual at xs - alpha ds. */
  function Curve(F: seq<real> -> seq<real>, normL2: seq<real> -> NormValue, n: nat, xs: seq<real>, ds: seq<real>): real -> Float
    requires |xs| == |ds|
  {
    (alpha: real) => Residual(F, normL2, n, SubScaled(xs, ds, alpha))
  }

  /**
   * r gives the same residual as the curve s at every step length.  Only an
   * application of s triggers it, so a proof that holds r abstract never
   * expands the curve.
   */
  ghost predicate Agrees(r: real -> Float, s: real -> Float)
  {
    forall a {:trigger s(a)} :: r(a) == s(a)
  }

  /** The residual curve never yields NaN, and at alpha = 0 it is the residual at xs itself. */
  lemma CurveFacts(F: seq<real> -> seq<real>, normL2: seq<real> -> NormValue, n: nat, xs: seq<real>, ds: seq<real>)
    requires |xs| == |ds|
    ensures NeverNaN(Curve(F, normL2, n, xs, ds))
    ensures Curve(F, normL2, n, xs, ds)(0.0) == Residual(F, normL2, n, xs)
  {
    SubScaledZero(xs, ds);
  }

  /** update moves x only when the line search returned a nonzero alpha with a finite residual. */
  predicate Accepted(alpha: real, residual: Float)
  {
    alpha != 0.0 && IsFinite(residual)
  }

  /**
   * The std::function stopCallback: empty, or set.  What a set callback
   * answers is outside the model; it is given as a function of the
   * iteration at which solve asks it.
   */
  datatype StopCallback = Unset | Set(fires: int -> bool)

  /**
   * The four reasons solve stops after an update: the stop callback fires,
   * alpha is zero, the residual is not finite, or it is below stopEpsilon.
   */
  predicate ShouldStop(stopCallback: StopCallback, iter: int, alpha: real, residual: Float, stopEpsilon: real)
  {
    (stopCallback.Set? && stopCallback.fires(iter)) || alpha == 0.0 || !IsFinite(residual) || Lt(residual, Num(stopEpsilon))
  }

  /**
   * The Krylov solver created by the constructor's factory: from the iterate,
   * the right-hand side F(x) and the initial guess held in dx, the new dx.
   */
  ghost predicate SolverKeepsSize(linearSolve: (seq<real>, seq<real>, seq<real>) -> seq<real>, n: nat)
  {
    forall xs: seq<real>, bs: seq<real>, ds: seq<real> :: |xs| == n && |bs| == n && |ds| == n ==> |linearSolve(xs, bs, ds)| == n
  }

  /** What the engine is set up with: F, the norm, the Krylov solver and the settings solve reads. */
  datatype Settings = Settings(F: seq<real> -> seq<real>, normL2: seq<real> -> NormValue,
                               linearSolve: (seq<real>, seq<real>, seq<real>) -> seq<real>, n: nat,
                               lineSearch: Strategy, maxAlpha: real, lineSearchMaxIter: int,
                               stopEpsilon: real, maxiter: int, stopCallback: StopCallback)

  /** What an update changes: x, dx, F(x), alpha, the residual, and the counter iter. */
  datatype State = State(x: seq<real>, dx: seq<real>, fOfX: seq<real>, alpha: real, residual: Float, iter: int)

  /** F and the solver keep size n, and x and dx hold n entries. */
  ghost predicate Fits(c: Settings, s: State)
  {
    KeepsSize(c.F, c.n) && SolverKeepsSize(c.linearSolve, c.n) && |s.x| == c.n && |s.dx| == c.n
  }

  /**
   * One update: F(x), the Krylov step from it, the selected line search
   * along that step, and x moved only when the step is accepted.  An
   * accepted step records the residual of the point it moves to; a rejected
   * one leaves x where it was.
   */
  function Step(c: Settings, s: State): (t: State)
    requires Fits(c, s)
    ensures Fits(c, t) && t.iter == s.iter
    ensures !Accepted(t.alpha, t.residual) ==> t.x == s.x
    ensures Accepted(t.alpha, t.residual) ==> t.residual == Residual(c.F, c.normL2, c.n, t.x)
  {
    var fx := c.F(s.x);
    var d := c.linearSolve(s.x, fx, s.dx);
    var r := Curve(c.F, c.normL2, c.n, s.x, d);
    var p := Search(c.lineSearch, r, c.maxAlpha, c.lineSearchMaxIter);
    CurveFacts(c.F, c.normL2, c.n, s.x, d);
    SearchResidualAtAlpha(c.lineSearch, r, c.maxAlpha, c.lineSearchMaxIter);
    State(if Accepted(p.alpha, p.residual) then SubScaled(s.x, d, p.alpha) else s.x, d, fx, p.alpha, p.residual, s.iter)
  }

  /** The test solve makes after the update of iteration t.iter. */
  predicate Stopping(c: Settings, t: State)
  {
    ShouldStop(c.stopCallback, t.iter, t.alpha, t.residual, c.stopEpsilon)
  }

  /** An update that does not stop solve, followed by ++iter. */
  function Pass(c: Settings, s: State): (t: State)
    requires Fits(c, s)
    ensures Fits(c, t) && t.iter == s.iter + 1
  {
    var u := Step(c, s);
    u.(iter := u.iter + 1)
  }

  /**
   * solve: while iter < maxiter, update, then stop with iter as it is when
   * the update meets the stopping test, or advance iter and go on.  It never
   * moves iter back and never past maxiter, and if it stops before maxiter
   * the last update met the stopping test.
   */
  function Run(c: Settings, s: State): (t: State)
    requires Fits(c, s)
    ensures Fits(c, t)
    ensures c.maxiter <= s.iter ==> t == s
    ensures s.iter < c.maxiter ==> s.iter <= t.iter <= c.maxiter
    ensures s.iter < c.maxiter && t.iter < c.maxiter ==> Stopping(c, t)
    decreases c.maxiter - s.iter
  {
    if c.maxiter <= s.iter then s
    else if Stopping(c, Step(c, s)) then Step(c, s)
    else Run(c, Pass(c, s))
  }

  /** j passes of solve's loop that did not stop. */
  function Iterate(c: Settings, s: State, j: nat): (t: State)
    requires Fits(c, s)
    ensures Fits(c, t) && t.iter == s.iter + j
  {
    if j == 0 then s else Pass(c, Iterate(c, s, j - 1))
  }

  /** j + 1 passes are one pass and then j more. */
  lemma {:induction false} IterateFirst(c: Settings, s: State, j: nat)
    requires Fits(c, s)
    ensures Iterate(c, s, j + 1) == Iterate(c, Pass(c, s), j)
  {
    if j > 0 {
      IterateFirst(c, s, j - 1);
    }
  }

  /**
   * solve performs k updates, 1 <= k <= maxiter - iter: the first k - 1 do
   * not meet the stopping test, and the run ends on the k-th, either because
   * it meets the test (iter stays) or because iter reaches maxiter.
   */
  lemma {:induction false} RunStopsAtFirst(c: Settings, s: State) returns (k: nat)
    requires Fits(c, s) && s.iter < c.maxiter
    ensures 1 <= k <= c.maxiter - s.iter
    ensures forall j :: 0 <= j < k - 1 ==> !Stopping(c, Step(c, Iterate(c, s, j)))
    ensures var u := Iterate(c, s, k - 1);
            Run(c, s) == if Stopping(c, Step(c, u)) then Step(c, u) else Pass(c, u)
    ensures !Stopping(c, Step(c, Iterate(c, s, k - 1))) ==> k == c.maxiter - s.iter
    decreases c.maxiter - s.iter
  {
    if Stopping(c, Step(c, s)) || c.maxiter <= s.iter + 1 {
      k := 1;
      assert Iterate(c, s, 0) == s;
    } else {
      var s' := Pass(c, s);
      var k' := RunStopsAtFirst(c, s');
      k := k' + 1;
      IterateFirst(c, s, k' - 1);
      NoStopBefore(c, s, k');
    }
  }

  /** No stop in the first pass and none in the k - 1 passes after it: none in the first k. */
  lemma NoStopBefore(c: Settings, s: State, k: nat)
    requires Fits(c, s) && !Stopping(c, Step(c, s))
    requires forall j :: 0 <= j < k - 1 ==> !Stopping(c, Step(c, Iterate(c, Pass(c, s), j)))
    ensures forall j :: 0 <= j < k ==> !Stopping(c, Step(c, Iterate(c, s, j)))
  {
    forall j | 0 <= j < k
      ensures !Stopping(c, Step(c, Iterate(c, s, j)))
    {
      if j > 0 {
        IterateFirst(c, s, j - 1);
      }
    }
  }

  class JFNK {
    const n: nat
    /** The caller's iterate, updated in place. */
    const x: array<real>
    /** The function whose root is sought. */
    const F: seq<real> -> seq<real>
    /** Vector<real>::normL2. */
    const normL2: seq<real> -> NormValue
    /** linearSolver->solve(): the new contents of dx. */
    const linearSolve: (seq<real>, seq<real>, seq<real>) -> seq<real>

    var lineSearch: Strategy
    var maxAlpha: real
    var lineSearchMaxIter: int
    var jacobianEpsilon: real
    var stopEpsilon: real
    var maxiter: int
    var stopCallback: StopCallback

    /** The Newton step, solved by the Krylov method. */
    const dx: array<real>
    const fOfX: array<real>
    const xPlusDx: array<real>
    const fOfXPlusDx: array<real>
    const xMinusDx: array<real>
    const fOfXMinusDx: array<real>

    var residual: Float
    var alpha: real
    var iter: int

    /** Every buffer holds n entries, the seven are distinct, F and the solver keep the size, and the residual is never NaN. */
    ghost predicate Valid()
      reads this
    {
      x.Length == n && dx.Length == n && fOfX.Length == n && xPlusDx.Length == n &&
      fOfXPlusDx.Length == n && xMinusDx.Length == n && fOfXMinusDx.Length == n &&
      x != dx && x != fOfX && x != xPlusDx && x != fOfXPlusDx && x != xMinusDx && x != fOfXMinusDx &&
      dx != fOfX && dx != xPlusDx && dx != fOfXPlusDx && dx != xMinusDx && dx != fOfXMinusDx &&
      fOfX != xPlusDx && fOfX != fOfXPlusDx && fOfX != xMinusDx && fOfX != fOfXMinusDx &&
      xPlusDx != fOfXPlusDx && xPlusDx != xMinusDx && xPlusDx != fOfXMinusDx &&
      fOfXPlusDx != xMinusDx && fOfXPlusDx != fOfXMinusDx &&
      xMinusDx != fOfXMinusDx &&
      KeepsSize(F, n) && SolverKeepsSize(linearSolve, n) && !residual.NaN?
    }

    /** The settings keep their values. */
    twostate predicate SettingsUnchanged()
      reads this
    {
      lineSearch == old(lineSearch) && maxAlpha == old(maxAlpha) && lineSearchMaxIter == old(lineSearchMaxIter) &&
      jacobianEpsilon == old(jacobianEpsilon) && stopEpsilon == old(stopEpsilon) && maxiter == old(maxiter) &&
      stopCallback == old(stopCallback)
    }

    /** The settings as solve reads them. */
    function SetupOf(): Settings
      reads this
    {
      Settings(F, normL2, linearSolve, n, lineSearch, maxAlpha, lineSearchMaxIter, stopEpsilon, maxiter, stopCallback)
    }

    /** The contents of x, dx and fOfX with alpha, residual and iter. */
    function StateOf(): State
      reads this, x, dx, fOfX
    {
      State(x[..], dx[..], fOfX[..], alpha, residual, iter)
    }

    /**
     * The constructor: the caller's x of size n, F, stopEpsilon, maxiter and
     * the Krylov solver; bisection, maxAlpha 1, 20 line-search rounds,
     * epsilon 1e-6, residual, alpha and iter zero, and dx a copy of x.
     */
    constructor(n: nat, x: array<real>, F: seq<real> -> seq<real>, stopEpsilon: real, maxiter: int,
                normL2: seq<real> -> NormValue, linearSolve: (seq<real>, seq<real>, seq<real>) -> seq<real>)
      requires x.Length == n && KeepsSize(F, n) && SolverKeepsSize(linearSolve, n)
      ensures Valid()
      ensures this.n == n && this.x == x && this.F == F && this.normL2 == normL2 && this.linearSolve == linearSolve
      ensures this.stopEpsilon == stopEpsilon && this.maxiter == maxiter
      ensures lineSearch == Bisect && maxAlpha == 1.0 && lineSearchMaxIter == 20 && jacobianEpsilon == 0.000001
      ensures residual == Num(0.0) && alpha == 0.0 && iter == 0 && stopCallback == Unset
      ensures fresh(dx) && fresh(fOfX) && fresh(xPlusDx) && fresh(fOfXPlusDx) && fresh(xMinusDx) && fresh(fOfXMinusDx)
      ensures dx[..] == x[..]
    {
      this.n := n;
      this.x := x;
      this.F := F;
      this.normL2 := normL2;
      this.linearSolve := linearSolve;
      lineSearch := Bisect;
      maxAlpha := 1.0;
      lineSearchMaxIter := 20;
      jacobianEpsilon := 0.000001;
      this.stopEpsilon := stopEpsilon;
      this.maxiter := maxiter;
      stopCallback := Unset;
      dx := new real[n];
      fOfX := new real[n];
      xPlusDx := new real[n];
      fOfXPlusDx := new real[n];
      xMinusDx := new real[n];
      fOfXMinusDx := new real[n];
      residual := Num(0.0);
      alpha := 0.0;
      iter := 0;
      new;
      forall i | 0 <= i < n {
        dx[i] := x[i];
      }
    }

    /** F(y, v): y receives F of v's contents. */
    method ApplyF(y: array<real>, v: array<real>)
      requires Valid() && y.Length == n && v.Length == n
      modifies y
      ensures y[..] == F(old(v[..]))
    {
      var fv := F(v[..]);
      forall i | 0 <= i < n {
        y[i] := fv[i];
      }
    }

    /**
     * krylovLinearFunc(y, v): the Jacobian-vector operator handed to the
     * Krylov solver.  Fills xPlusDx and xMinusDx with x +- eps v and their
     * images under F, then y with the central difference; x is not written.
     */
    method KrylovLinearFunc(y: array<real>, v: array<real>)
      requires Valid() && y.Length == n && v.Length == n && jacobianEpsilon != 0.0
      requires v != xPlusDx && v != xMinusDx
      requires y != x && y != xPlusDx && y != xMinusDx && y != fOfXPlusDx && y != fOfXMinusDx
      modifies y, xPlusDx, xMinusDx, fOfXPlusDx, fOfXMinusDx
      ensures y[..] == CentralDifference(F, n, x[..], old(v[..]), jacobianEpsilon)
      ensures xPlusDx[..] == AddScaled(x[..], old(v[..]), jacobianEpsilon)
      ensures xMinusDx[..] == SubScaled(x[..], old(v[..]), jacobianEpsilon)
      ensures fOfXPlusDx[..] == F(xPlusDx[..]) && fOfXMinusDx[..] == F(xMinusDx[..])
    {
      var epsilon := jacobianEpsilon;
      ghost var vs := v[..];
      FillShifted(v, epsilon);
      ApplyF(fOfXPlusDx, xPlusDx);
      ApplyF(fOfXMinusDx, xMinusDx);
      FillQuotients(y, epsilon, x[..], vs);
    }

    /** The first loop of krylovLinearFunc: xPlusDx and xMinusDx receive x + eps v and x - eps v. */
    method FillShifted(v: array<real>, epsilon: real)
      requires Valid() && v.Length == n && v != xPlusDx && v != xMinusDx
      modifies xPlusDx, xMinusDx
      ensures xPlusDx[..] == AddScaled(x[..], v[..], epsilon) && xMinusDx[..] == SubScaled(x[..], v[..], epsilon)
    {
      ghost var plus, minus := AddScaled(x[..], v[..], epsilon), SubScaled(x[..], v[..], epsilon);
      var i := 0;
      while i < n
        invariant 0 <= i <= n
        invariant forall j :: 0 <= j < i ==> xPlusDx[j] == plus[j]
        invariant forall j :: 0 <= j < i ==> xMinusDx[j] == minus[j]
      {
        xPlusDx[i] := x[i] + v[i] * epsilon;
        xMinusDx[i] := x[i] - v[i] * epsilon;
        i := i + 1;
      }
      assert xPlusDx[..] == plus;
      assert xMinusDx[..] == minus;
    }

    /** The last loop of krylovLinearFunc: y receives the two images of F subtracted and divided by 2 eps. */
    method FillQuotients(y: array<real>, epsilon: real, ghost xs: seq<real>, ghost vs: seq<real>)
      requires Valid() && y.Length == n && |xs| == n && |vs| == n && epsilon != 0.0
      requires y != fOfXPlusDx && y != fOfXMinusDx
      requires fOfXPlusDx[..] == F(AddScaled(xs, vs, epsilon)) && fOfXMinusDx[..] == F(SubScaled(xs, vs, epsilon))
      modifies y
      ensures y[..] == CentralDifference(F, n, xs, vs, epsilon)
    {
      var denom := 2.0 * epsilon;
      ghost var diff := CentralDifference(F, n, xs, vs, epsilon);
      var i := 0;
      while i < n
        invariant 0 <= i <= n
        invariant forall j :: 0 <= j < i ==> y[j] == diff[j]
      {
        CentralDifferenceAt(F, n, xs, vs, epsilon, i);
        y[i] := (fOfXPlusDx[i] - fOfXMinusDx[i]) / denom;
        i := i + 1;
      }
    }

    /**
     * residualAtAlpha: writes x - alpha dx into xPlusDx and F of it into
     * fOfXPlusDx, and returns the residual there; x and dx are not written.
     */
    method ResidualAtAlpha(a: real) returns (r: Float)
      requires Valid()
      modifies xPlusDx, fOfXPlusDx
      ensures r == Curve(F, normL2, n, x[..], dx[..])(a) && !r.NaN?
      ensures xPlusDx[..] == SubScaled(x[..], dx[..], a) && fOfXPlusDx[..] == F(xPlusDx[..])
    {
      ghost var point := SubScaled(x[..], dx[..], a);
      var i := 0;
      while i < n
        invariant 0 <= i <= n
        invariant forall j :: 0 <= j < i ==> xPlusDx[j] == point[j]
      {
        xPlusDx[i] := x[i] - dx[i] * a;
        i := i + 1;
      }
      assert xPlusDx[..] == point;
      ApplyF(fOfXPlusDx, xPlusDx);
      var stepResidual := CalcResidual(normL2, n, fOfXPlusDx[..]);
      if stepResidual.NaN? {
        stepResidual := Num(DblMax);
      }
      r := stepResidual;
    }

    /** lineSearch_none: the full step maxAlpha, recording the residual there. */
    method LineSearchNone() returns (a: real)
      requires Valid()
      modifies this, xPlusDx, fOfXPlusDx
      ensures Valid() && SettingsUnchanged() && iter == old(iter) && alpha == old(alpha)
      ensures Pick(a, residual) == Search(None, Curve(F, normL2, n, x[..], dx[..]), maxAlpha, lineSearchMaxIter)
    {
      residual := ResidualAtAlpha(maxAlpha);
      a := maxAlpha;
    }

    /**
     * lineSearch_linear: samples alpha = maxAlpha i / lineSearchMaxIter for
     * i = 0 .. lineSearchMaxIter and keeps the first strictly smallest
     * residual, starting from alpha 0 and the largest double.
     */
    method LineSearchLinear() returns (a: real)
      requires Valid()
      modifies this, xPlusDx, fOfXPlusDx
      ensures Valid() && SettingsUnchanged() && iter == old(iter) && alpha == old(alpha)
      ensures Pick(a, residual) == Search(Linear, Curve(F, normL2, n, x[..], dx[..]), maxAlpha, lineSearchMaxIter)
    {
      ghost var r := Curve(F, normL2, n, x[..], dx[..]);
      var maxAlpha, maxIter := maxAlpha, lineSearchMaxIter;
      a := 0.0;
      residual := Num(DblMax);
      var i := 0;
      while i <= maxIter
        invariant Valid()
        invariant r == Curve(F, normL2, n, x[..], dx[..])
        invariant LinearFrom(r, maxAlpha, maxIter, i, Pick(a, residual)) == LinearSearch(r, maxAlpha, maxIter)
        decreases maxIter + 1 - i
        modifies this`residual, xPlusDx, fOfXPlusDx
      {
        var stepAlpha := SampleAlpha(maxAlpha, maxIter, i);
        ghost var before := Pick(a, residual);
        a := KeepIfBetter(stepAlpha, a);
        assert LinearFrom(r, maxAlpha, maxIter, i, before) == LinearFrom(r, maxAlpha, maxIter, i + 1, Pick(a, residual));
        i := i + 1;
      }
    }

    /** One pass of the sampling loop of lineSearch_linear: the residual at stepAlpha replaces the best one only when strictly smaller. */
    method KeepIfBetter(stepAlpha: real, a: real) returns (a': real)
      requires Valid()
      modifies this`residual, xPlusDx, fOfXPlusDx
      ensures Valid()
      ensures var r := Curve(F, normL2, n, x[..], dx[..]);
              Pick(a', residual) == if Lt(r(stepAlpha), old(residual)) then Pick(stepAlpha, r(stepAlpha)) else Pick(a, old(residual))
    {
      a' := a;
      var stepResidual := ResidualAtAlpha(stepAlpha);
      if Lt(stepResidual, residual) {
        residual := stepResidual;
        a' := stepAlpha;
      }
    }

    /**
     * lineSearch_bisect: halves [0, maxAlpha] for at most lineSearchMaxIter
     * rounds, stopping when the midpoint is strictly worse than both ends,
     * then returns the left end only when its residual is strictly below the
     * right end's.
     */
    method LineSearchBisect() returns (a: real)
      requires Valid()
      modifies this, xPlusDx, fOfXPlusDx
      ensures Valid() && SettingsUnchanged() && iter == old(iter) && alpha == old(alpha)
      ensures Pick(a, residual) == Search(Bisect, Curve(F, normL2, n, x[..], dx[..]), maxAlpha, lineSearchMaxIter)
    {
      ghost var r := Curve(F, normL2, n, x[..], dx[..]);
      a, residual := Bisection(r);
    }

    /**
     * The body of lineSearch_bisect along the residual curve r: the two end
     * residuals, the rounds from [0, maxAlpha], then the end to return and
     * fmin of the two residuals.
     */
    method Bisection(ghost r: real -> Float) returns (a: real, res: Float)
      requires Valid() && Agrees(r, Curve(F, normL2, n, x[..], dx[..]))
      modifies xPlusDx, fOfXPlusDx
      ensures !res.NaN?
      ensures Pick(a, res) == Search(Bisect, r, maxAlpha, lineSearchMaxIter)
    {
      var startL, startR := EndResiduals(r);
      var alphaL, alphaR, residualL, residualR := BisectRounds(r, 0.0, maxAlpha, startL, startR);
      res := Fmin(residualL, residualR);
      a := if Lt(residualL, residualR) then alphaL else alphaR;
    }

    /**
     * The bracket loop of lineSearch_bisect from a given bracket: at most
     * lineSearchMaxIter rounds along the residual curve r, stopping early
     * when a round says so.
     */
    method BisectRounds(ghost r: real -> Float, alphaL0: real, alphaR0: real, residualL0: Float, residualR0: Float)
      returns (alphaL: real, alphaR: real, residualL: Float, residualR: Float)
      requires Valid() && !residualL0.NaN? && !residualR0.NaN?
      requires Agrees(r, Curve(F, normL2, n, x[..], dx[..]))
      modifies xPlusDx, fOfXPlusDx
      ensures !residualL.NaN? && !residualR.NaN?
      ensures Bracket(alphaL, alphaR, residualL, residualR) == Rounds(r, Bracket(alphaL0, alphaR0, residualL0, residualR0), lineSearchMaxIter, false)
    {
      ghost var xs, ds := x[..], dx[..];
      var maxIter := lineSearchMaxIter;
      ghost var final := Rounds(r, Bracket(alphaL0, alphaR0, residualL0, residualR0), maxIter, false);
      alphaL, alphaR, residualL, residualR := alphaL0, alphaR0, residualL0, residualR0;
      var i := 0;
      while i < maxIter
        invariant 0 <= i
        invariant x[..] == xs && dx[..] == ds
        invariant !residualL.NaN? && !residualR.NaN?
        invariant Rounds(r, Bracket(alphaL, alphaR, residualL, residualR), maxIter - i, false) == final
        invariant maxIter <= i ==> Bracket(alphaL, alphaR, residualL, residualR) == final
      {
        ghost var b := Bracket(alphaL, alphaR, residualL, residualR);
        var stop;
        stop, alphaL, alphaR, residualL, residualR := BisectRound(r, alphaL, alphaR, residualL, residualR);
        RoundsStep(r, b, maxIter - i, false);
        if stop {
          break;
        }
        i := i + 1;
      }
    }

    /** The start of lineSearch_bisect: the residuals at alpha 0 and at maxAlpha. */
    method EndResiduals(ghost r: real -> Float) returns (residualL: Float, residualR: Float)
      requires Valid() && Agrees(r, Curve(F, normL2, n, x[..], dx[..]))
      modifies xPlusDx, fOfXPlusDx
      ensures Bracket(0.0, maxAlpha, residualL, residualR) == StartBracket(r, maxAlpha)
      ensures !residualL.NaN? && !residualR.NaN?
    {
      ghost var curve := Curve(F, normL2, n, x[..], dx[..]);
      residualL := ResidualAtAlpha(0.0);
      assert residualL == curve(0.0) == r(0.0);
      residualR := ResidualAtAlpha(maxAlpha);
      assert residualR == curve(maxAlpha) == r(maxAlpha);
    }

    /**
     * One pass of the bisection loop body: the residual at the midpoint, then
     * stop (with the bracket unchanged) or move exactly one end to the midpoint.
     */
    method BisectRound(ghost r: real -> Float, alphaL: real, alphaR: real, residualL: Float, residualR: Float)
      returns (stop: bool, alphaL': real, alphaR': real, residualL': Float, residualR': Float)
      requires Valid() && !residualL.NaN? && !residualR.NaN?
      requires Agrees(r, Curve(F, normL2, n, x[..], dx[..]))
      modifies xPlusDx, fOfXPlusDx
      ensures !residualL'.NaN? && !residualR'.NaN?
      ensures var b := Bracket(alphaL, alphaR, residualL, residualR);
              Round(r, b, false) ==
                if stop then Stop else Next(Bracket(alphaL', alphaR', residualL', residualR'))
      ensures stop ==> alphaL' == alphaL && alphaR' == alphaR && residualL' == residualL && residualR' == residualR
    {
      ghost var curve := Curve(F, normL2, n, x[..], dx[..]);
      alphaL', alphaR', residualL', residualR' := alphaL, alphaR, residualL, residualR;
      var alphaMid := 0.5 * (alphaL + alphaR);
      var residualMid := ResidualAtAlpha(alphaMid);
      assert residualMid == curve(alphaMid) == r(alphaMid);
      if Lt(residualL, residualMid) && Lt(residualR, residualMid) {
        return true, alphaL', alphaR', residualL', residualR';
      }
      stop := false;
      if Lt(residualMid, residualL) && Lt(residualMid, residualR) {
        if Le(residualL, residualR) {
          alphaR', residualR' := alphaMid, residualMid;
        } else {
          alphaL', residualL' := alphaMid, residualMid;
        }
      } else if Lt(residualMid, residualL) {
        alphaL', residualL' := alphaMid, residualMid;
      } else {
        alphaR', residualR' := alphaMid, residualMid;
      }
    }

    /** (this->*lineSearch)(): the selected search. */
    method RunLineSearch() returns (a: real)
      requires Valid()
      modifies this, xPlusDx, fOfXPlusDx
      ensures Valid() && SettingsUnchanged() && iter == old(iter) && alpha == old(alpha)
      ensures Pick(a, residual) == Search(lineSearch, Curve(F, normL2, n, x[..], dx[..]), maxAlpha, lineSearchMaxIter)
    {
      match lineSearch
      case None => a := LineSearchNone();
      case Linear => a := LineSearchLinear();
      case Bisect => a := LineSearchBisect();
    }

    /**
     * update: F(x) into fOfX, the Krylov solve into dx, the line search into
     * alpha and residual, and x - alpha dx into x when the step is accepted.
     * An accepted step records the residual of the new x.
     */
    method Update()
      requires Valid()
      modifies this, x, dx, fOfX, xPlusDx, fOfXPlusDx, xMinusDx, fOfXMinusDx
      ensures Valid() && SettingsUnchanged() && iter == old(iter)
      ensures StateOf() == Step(SetupOf(), old(StateOf()))
      ensures fOfX[..] == F(old(x[..]))
      ensures dx[..] == linearSolve(old(x[..]), fOfX[..], old(dx[..]))
      ensures Pick(alpha, residual) == Search(lineSearch, Curve(F, normL2, n, old(x[..]), dx[..]), maxAlpha, lineSearchMaxIter)
      ensures x[..] == if Accepted(alpha, residual) then SubScaled(old(x[..]), dx[..], alpha) else old(x[..])
      ensures Accepted(alpha, residual) ==> residual == Residual(F, normL2, n, x[..])
    {
      ghost var x0 := x[..];
      ApplyF(fOfX, x);
      KrylovSolve();
      alpha := RunLineSearch();
      assert x[..] == x0;
      if alpha == 0.0 {
      } else if !IsFinite(residual) {
      } else {
        Advance(alpha);
        CurveFacts(F, normL2, n, x0, dx[..]);
        SearchResidualAtAlpha(lineSearch, Curve(F, normL2, n, x0, dx[..]), maxAlpha, lineSearchMaxIter);
      }
    }

    /**
     * linearSolver->solve(): dx receives the Krylov solution for the current
     * x and F(x), started from the old dx.  The solver's calls of
     * krylovLinearFunc may leave anything in the four scratch buffers.
     */
    method KrylovSolve()
      requires Valid()
      modifies dx, xPlusDx, fOfXPlusDx, xMinusDx, fOfXMinusDx
      ensures dx[..] == linearSolve(x[..], fOfX[..], old(dx[..]))
    {
      ghost var xs, fs := x[..], fOfX[..];
      var step := linearSolve(x[..], fOfX[..], dx[..]);
      forall i | 0 <= i < n {
        dx[i] := step[i];
      }
      assert dx[..] == step;
      assert x[..] == xs && fOfX[..] == fs;
    }

    /** The last loop of update: x[i] -= dx[i] * a for every i. */
    method Advance(a: real)
      requires Valid()
      modifies x
      ensures x[..] == SubScaled(old(x[..]), dx[..], a)
    {
      ghost var target := SubScaled(x[..], dx[..], a);
      var i := 0;
      while i < n
        invariant 0 <= i <= n
        invariant forall j :: 0 <= j < i ==> x[j] == target[j]
        invariant forall j :: i <= j < n ==> x[j] == old(x[j])
      {
        x[i] := x[i] - dx[i] * a;
        i := i + 1;
      }
      assert x[..] == target;
    }

    /**
     * solve: updates while iter < maxiter and stops, without advancing iter,
     * after the first update that meets the stopping test.  What it leaves
     * in x, dx, fOfX, alpha, residual and iter is Run of the state it
     * started from.
     */
    method Solve()
      requires Valid()
      modifies this, x, dx, fOfX, xPlusDx, fOfXPlusDx, xMinusDx, fOfXMinusDx
      ensures Valid() && SettingsUnchanged()
      ensures StateOf() == Run(old(SetupOf()), old(StateOf()))
    {
      ghost var c := SetupOf();
      ghost var final := Run(c, StateOf());
      while iter < maxiter
        invariant Valid() && SettingsUnchanged() && SetupOf() == c
        invariant Run(c, StateOf()) == final
        decreases maxiter - iter
      {
        ghost var s := StateOf();
        Update();
        if ShouldStop(stopCallback, iter, alpha, residual, stopEpsilon) {
          assert StateOf() == final;
          break;
        }
        iter := iter + 1;
        assert StateOf() == Pass(c, s);
      }
    }
  }
}
