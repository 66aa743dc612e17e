/**
 * The floating-point values the Newton engine compares, seen through exact
 * arithmetic: a finite number, +infinity (an overflowing norm, or a
 * division by zero) or NaN.  Comparisons follow IEEE 754: NaN is unordered
 * and +infinity lies above every number.
 */
module FloatModel {

  /** A real-valued result as the hardware would hold it. */
  datatype Float = Num(v: real) | PosInf | NaN

  /** std::numeric_limits<double>::max(), the largest finite double, written out exactly. */
  const DblMax: real := 179769313486231570814527423731704356798070567525844996598917476803157260780028538760589558632766878171540458953514382464234321326889464182768467546703537516986049910576551282076245490090389328944075868508455133942304583236903222948165808559332123348274797826204144723168738177180919299881250404026184124858368.0

  type NonNegReal = r: real | 0.0 <= r

  /** What the vector L2 norm may return: a length, an overflow to +infinity, or NaN (from non-finite inputs). */
  datatype NormValue = Length(len: NonNegReal) | Overflow | Undefined

  /** a < b as the hardware compares: false whenever either side is NaN. */
  predicate Lt(a: Float, b: Float)
  {
    match (a, b)
    case (Num(p), Num(q)) => p < q
    case (Num(_), PosInf) => true
    case _ => false
  }

  /** a <= b as the hardware compares: false whenever either side is NaN. */
  predicate Le(a: Float, b: Float)
  {
    Lt(a, b) || (a == b && !a.NaN?)
  }

  /** std::isfinite. */
  predicate IsFinite(a: Float)
  {
    a.Num?
  }

  /** Away from NaN the comparison is a strict total order. */
  lemma Trichotomy(a: Float, b: Float)
    requires !a.NaN? && !b.NaN?
    ensures Lt(a, b) || a == b || Lt(b, a)
    ensures !(Lt(a, b) && Lt(b, a)) && !Lt(a, a)
  {
  }

  lemma LtTransitive(a: Float, b: Float, c: Float)
    requires Lt(a, b) && Lt(b, c)
    ensures Lt(a, c)
  {
  }

  /** a < b and b not above c give a < c, away from NaN. */
  lemma LtThenNotAbove(a: Float, b: Float, c: Float)
    requires !c.NaN? && Lt(a, b) && !Lt(c, b)
    ensures Lt(a, c)
  {
  }

  lemma LeTransitive(a: Float, b: Float, c: Float)
    requires Le(a, b) && Le(b, c)
    ensures Le(a, c)
  {
  }

  /**
   * fmin: the smaller of the two, ignoring a NaN operand.  Away from NaN the
   * result is one of the operands and lies at or below both.
   */
  function Fmin(a: Float, b: Float): (m: Float)
    ensures !a.NaN? && !b.NaN? ==> (m == a || m == b) && Le(m, a) && Le(m, b)
    ensures a.NaN? ==> m == b
    ensures b.NaN? ==> m == a
  {
    if a.NaN? then b else if b.NaN? then a else if Lt(b, a) then b else a
  }

  /**
   * The residual check of residualAtAlpha: a NaN (the only value unequal to
   * itself) becomes the largest finite double; everything else is kept.
   */
  function Sanitise(s: Float): (r: Float)
    ensures !r.NaN?
    ensures s.NaN? ==> r == Num(DblMax) && IsFinite(r)
    ensures !s.NaN? ==> r == s
  {
    if s.NaN? then Num(DblMax) else s
  }

  /**
   * normL2(v) / n with n converted to floating point: a length divided by a
   * positive n, +infinity over anything stays +infinity, and dividing by
   * n = 0 gives NaN for a zero length and +infinity otherwise.
   */
  function NormOverSize(norm: NormValue, n: nat): (r: Float)
    ensures r.Num? ==> 0.0 <= r.v
    ensures r.NaN? <==> norm.Undefined? || (n == 0 && norm == Length(0.0))
    ensures r.PosInf? <==> norm.Overflow? || (n == 0 && norm.Length? && norm.len != 0.0)
  {
    match norm
    case Length(len) => if n > 0 then Num(len / n as real) else if len == 0.0 then NaN else PosInf
    case Overflow => PosInf
    case Undefined => NaN
  }
}
