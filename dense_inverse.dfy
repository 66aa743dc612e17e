/**
 * Dense Householder QR over column-major flat buffers (entry (i, j) at
 * offset i + m*j): upper-triangular back-substitution, the reflection
 * applier, the factorisation loop and the least-squares / square solve and
 * matrix inverse built on them.  Arithmetic is exact (`real`); the vector
 * L2 norm is a parameter `norm`, since square roots are outside the model.
 */
module DenseInverse {
  import opened ColumnMajor

  /*---------------------------------------------------------------------
   * Upper-triangular systems
   *-------------------------------------------------------------------*/

  /** Every diagonal entry a[i, i], i < n, of the m-row matrix a is nonzero. */
  predicate DiagonalNonzero(a: seq<real>, m: nat, n: nat)
  {
    forall i :: 0 <= i < n && Idx(m, i, i) < |a| ==> a[Idx(m, i, i)] != 0.0
  }

  /**
   * x solves the upper-triangular system formed by the first n rows of a:
   * for every i < n, the sum over j in [i, n) of a[i, j] * x[j] is b[i].
   */
  predicate SolvesUpper(a: seq<real>, m: nat, n: nat, b: seq<real>, x: seq<real>)
    requires n <= m && m * n <= |a| && n <= |b| && |x| == n
  {
    forall i :: 0 <= i < n ==> RowSum(a, m, i, i, n, x) == b[i]
  }

  /** a and a' agree on and above the diagonal of their first n rows. */
  predicate SameUpper(a: seq<real>, a': seq<real>, m: nat, n: nat)
  {
    forall i, j {:trigger Idx(m, i, j)} :: 0 <= i <= j < n && Idx(m, i, j) < |a| && Idx(m, i, j) < |a'| ==>
      a[Idx(m, i, j)] == a'[Idx(m, i, j)]
  }

  /**
   * backSubstituteUpperTriangular: solves the upper-triangular system for
   * x[xOff .. xOff+n), from the last unknown up.  `xOff` models the
   * caller passing a pointer into the middle of a buffer.  A zero diagonal
   * entry makes the division produce a non-finite value, which this model
   * leaves unspecified.
   */
  method BackSubstituteUpperTriangular(m: nat, n: nat, x: array<real>, xOff: nat, a: array<real>, b: array<real>)
    requires n <= m
    requires m * n <= a.Length && n <= b.Length && xOff + n <= x.Length
    requires x != a && x != b
    modifies x
    ensures forall p :: 0 <= p < x.Length && !(xOff <= p < xOff + n) ==> x[p] == old(x[p])
    ensures DiagonalNonzero(a[..], m, n) ==> SolvesUpper(a[..], m, n, b[..], x[xOff .. xOff + n])
  {
    var i := n;
    while i > 0
      invariant 0 <= i <= n
      invariant forall p :: 0 <= p < x.Length && !(xOff + i <= p < xOff + n) ==> x[p] == old(x[p])
      invariant DiagonalNonzero(a[..], m, n) ==>
                  forall r :: i <= r < n ==> RowSum(a[..], m, r, r, n, x[xOff .. xOff + n]) == b[r]
    {
      i := i - 1;
      ghost var before := x[xOff .. xOff + n];
      var sum := SolvedTailSum(m, n, i, x, xOff, a);
      IdxBound(m, n, i, i);
      var diag := a[Idx(m, i, i)];
      if diag != 0.0 {
        x[xOff + i] := (b[i] - sum) / diag;
        assert x[xOff .. xOff + n] == before[i := (b[i] - sum) / diag];
        if DiagonalNonzero(a[..], m, n) {
          BackSubstituteStep(a[..], m, n, b[..], before, x[xOff .. xOff + n], i, sum);
        }
      } else {
        x[xOff + i] := *;
        assert !DiagonalNonzero(a[..], m, n);
      }
    }
  }

  /** The inner loop of back-substitution: row i of a times the already solved x[i+1 .. n). */
  method SolvedTailSum(m: nat, n: nat, i: nat, x: array<real>, xOff: nat, a: array<real>) returns (sum: real)
    requires i < n <= m && m * n <= a.Length && xOff + n <= x.Length
    ensures sum == RowSum(a[..], m, i, i + 1, n, x[xOff .. xOff + n])
  {
    sum := 0.0;
    var j := i + 1;
    while j < n
      invariant i + 1 <= j <= n
      invariant sum == RowSum(a[..], m, i, i + 1, j, x[xOff .. xOff + n])
    {
      IdxBound(m, n, i, j);
      sum := sum + a[Idx(m, i, j)] * x[xOff + j];
      j := j + 1;
    }
  }

  /**
   * One step of back-substitution: if rows (i, n) are solved, setting x[i]
   * to (b[i] - sum) / a[i, i], where sum is the rest of row i, solves row i
   * without disturbing the rows below.
   */
  lemma BackSubstituteStep(a: seq<real>, m: nat, n: nat, b: seq<real>, before: seq<real>, after: seq<real>,
                           i: nat, sum: real)
    requires n <= m && m * n <= |a| && n <= |b| && |before| == n && |after| == n && i < n
    requires DiagonalNonzero(a, m, n)
    requires forall r :: i < r < n ==> RowSum(a, m, r, r, n, before) == b[r]
    requires sum == RowSum(a, m, i, i + 1, n, before)
    requires Idx(m, i, i) < |a|
    requires after == before[i := (b[i] - sum) / a[Idx(m, i, i)]]
    ensures forall r :: i <= r < n ==> RowSum(a, m, r, r, n, after) == b[r]
  {
    forall r | i < r < n
      ensures RowSum(a, m, r, r, n, after) == b[r]
    {
      RowSumFrame(a, a, m, r, r, n, after, before);
    }
    SolveRow(a, m, n, b, before, after, i, sum);
  }

  lemma SolveRow(a: seq<real>, m: nat, n: nat, b: seq<real>, before: seq<real>, after: seq<real>,
                 i: nat, sum: real)
    requires n <= m && m * n <= |a| && n <= |b| && |before| == n && |after| == n && i < n
    requires sum == RowSum(a, m, i, i + 1, n, before)
    requires Idx(m, i, i) < |a| && a[Idx(m, i, i)] != 0.0
    requires after == before[i := (b[i] - sum) / a[Idx(m, i, i)]]
    ensures RowSum(a, m, i, i, n, after) == b[i]
  {
    RowSumFrame(a, a, m, i, i + 1, n, after, before);
    RowSumFirst(a, m, i, i, n, after);
    DivCancel(b[i] - sum, a[Idx(m, i, i)], after[i]);
  }

  lemma DivCancel(t: real, d: real, q: real)
    requires d != 0.0 && q == t / d
    ensures q * d == t
  {
  }

  /** Solutions of an upper-triangular system with a nonzero diagonal agree from row i down. */
  lemma {:induction false} SolutionsAgreeFrom(a: seq<real>, m: nat, n: nat, b: seq<real>, x: seq<real>, y: seq<real>, i: nat)
    requires n <= m && m * n <= |a| && n <= |b| && |x| == n && |y| == n && i <= n
    requires DiagonalNonzero(a, m, n)
    requires SolvesUpper(a, m, n, b, x) && SolvesUpper(a, m, n, b, y)
    ensures forall r :: i <= r < n ==> x[r] == y[r]
    decreases n - i
  {
    if i < n {
      SolutionsAgreeFrom(a, m, n, b, x, y, i + 1);
      IdxBound(m, n, i, i);
      PivotDetermined(a, m, n, b[i], x, y, i);
    }
  }

  /** Two vectors that agree below row i and both satisfy row i, whose pivot is nonzero, agree at i too. */
  lemma PivotDetermined(a: seq<real>, m: nat, n: nat, bi: real, x: seq<real>, y: seq<real>, i: nat)
    requires n <= m && m * n <= |a| && |x| == n && |y| == n && i < n
    requires Idx(m, i, i) < |a| && a[Idx(m, i, i)] != 0.0
    requires forall r :: i < r < n ==> x[r] == y[r]
    requires RowSum(a, m, i, i, n, x) == bi && RowSum(a, m, i, i, n, y) == bi
    ensures x[i] == y[i]
  {
    TailAgrees(a, m, n, x, y, i);
    PivotFromRow(a, m, n, bi, x, i);
    PivotFromRow(a, m, n, bi, y, i);
  }

  lemma TailAgrees(a: seq<real>, m: nat, n: nat, x: seq<real>, y: seq<real>, i: nat)
    requires n <= m && m * n <= |a| && |x| == n && |y| == n && i < n
    requires forall r :: i < r < n ==> x[r] == y[r]
    ensures RowSum(a, m, i, i + 1, n, x) == RowSum(a, m, i, i + 1, n, y)
  {
    RowSumFrame(a, a, m, i, i + 1, n, x, y);
  }

  /** A vector satisfying row i, whose pivot is nonzero, has x[i] = (b[i] - rest of row i) / a[i, i]. */
  lemma PivotFromRow(a: seq<real>, m: nat, n: nat, bi: real, x: seq<real>, i: nat)
    requires n <= m && m * n <= |a| && |x| == n && i < n && Idx(m, i, i) < |a| && a[Idx(m, i, i)] != 0.0
    requires RowSum(a, m, i, i, n, x) == bi
    ensures x[i] == (bi - RowSum(a, m, i, i + 1, n, x)) / a[Idx(m, i, i)]
  {
    RowSumFirst(a, m, i, i, n, x);
    DivideOut(a[Idx(m, i, i)], x[i], RowSum(a, m, i, i + 1, n, x), bi);
  }

  /** d p + s == b with d nonzero means p == (b - s) / d. */
  lemma DivideOut(d: real, p: real, s: real, b: real)
    requires d != 0.0 && d * p + s == b
    ensures p == (b - s) / d
  {
  }

  /**
   * With a nonzero diagonal, the upper-triangular system has exactly one
   * solution, so what back-substitution writes is determined by the input.
   */
  lemma SolvesUpperUnique(a: seq<real>, m: nat, n: nat, b: seq<real>, x: seq<real>, y: seq<real>)
    requires n <= m && m * n <= |a| && n <= |b| && |x| == n && |y| == n
    requires DiagonalNonzero(a, m, n)
    requires SolvesUpper(a, m, n, b, x) && SolvesUpper(a, m, n, b, y)
    ensures x == y
  {
    SolutionsAgreeFrom(a, m, n, b, x, y, 0);
  }

  /**
   * Back-substitution reads only the entries on or above the diagonal of
   * the first n rows: two matrices that agree there have the same
   * solutions and the same nonzero-diagonal condition.
   */
  lemma SolvesUpperReadsUpperOnly(a: seq<real>, a': seq<real>, m: nat, n: nat, b: seq<real>, x: seq<real>)
    requires n <= m && m * n <= |a| && m * n <= |a'| && n <= |b| && |x| == n
    requires SameUpper(a, a', m, n)
    ensures DiagonalNonzero(a, m, n) <==> DiagonalNonzero(a', m, n)
    ensures SolvesUpper(a, m, n, b, x) <==> SolvesUpper(a', m, n, b, x)
  {
    forall i | 0 <= i < n
      ensures RowSum(a, m, i, i, n, x) == RowSum(a', m, i, i, n, x)
    {
      RowSumFrame(a, a', m, i, i, n, x, x);
    }
    forall i | 0 <= i < n
      ensures Idx(m, i, i) < |a| && Idx(m, i, i) < |a'| && a[Idx(m, i, i)] == a'[Idx(m, i, i)]
    {
      IdxBound(m, n, i, i);
    }
  }

  /** A sum over a row whose entries in [lo, hi) are all zero is zero. */
  lemma {:induction false} RowSumZero(a: seq<real>, m: nat, i: nat, lo: nat, hi: nat, x: seq<real>)
    requires i < m && m * hi <= |a| && hi <= |x|
    requires forall j {:trigger Idx(m, i, j)} :: lo <= j < hi && Idx(m, i, j) < |a| ==> a[Idx(m, i, j)] == 0.0
    ensures RowSum(a, m, i, lo, hi, x) == 0.0
    decreases hi
  {
    if lo < hi {
      MulMonotone(m, hi - 1, hi);
      IdxBound(m, hi, i, hi - 1);
      RowSumZero(a, m, i, lo, hi - 1, x);
    }
  }

  /**
   * Back-substituting against a matrix whose upper part is the identity
   * returns the right-hand side unchanged, and nothing else solves it.
   */
  lemma IdentitySolvesToRhs(a: seq<real>, m: nat, n: nat, b: seq<real>, x: seq<real>)
    requires n <= m && m * n <= |a| && n <= |b| && |x| == n
    requires forall i, j {:trigger Idx(m, i, j)} :: 0 <= i <= j < n && Idx(m, i, j) < |a| ==>
               a[Idx(m, i, j)] == if i == j then 1.0 else 0.0
    ensures DiagonalNonzero(a, m, n)
    ensures SolvesUpper(a, m, n, b, x) <==> x == b[..n]
  {
    forall i | 0 <= i < n
      ensures RowSum(a, m, i, i, n, b[..n]) == b[i]
    {
      IdxBound(m, n, i, i);
      RowSumFirst(a, m, i, i, n, b[..n]);
      RowSumZero(a, m, i, i + 1, n, b[..n]);
    }
    assert SolvesUpper(a, m, n, b, b[..n]);
    if SolvesUpper(a, m, n, b, x) {
      SolvesUpperUnique(a, m, n, b, x, b[..n]);
    }
  }

  /*---------------------------------------------------------------------
   * Householder reflections
   *-------------------------------------------------------------------*/

  /** Sum over i in [k, hi) of v[i-k] * a[c+i]: the reflector dotted with rows [k, hi) of the column at offset c. */
  function ColDot(a: seq<real>, c: nat, k: nat, hi: nat, v: seq<real>): real
    requires k <= hi && c + hi <= |a| && hi - k <= |v|
    decreases hi
  {
    if hi == k then 0.0 else ColDot(a, c, k, hi - 1, v) + v[hi - 1 - k] * a[c + hi - 1]
  }

  /** ColDot reads the column only at rows [k, hi). */
  lemma {:induction false} ColDotFrame(a: seq<real>, a': seq<real>, c: nat, k: nat, hi: nat, v: seq<real>)
    requires k <= hi && c + hi <= |a| && c + hi <= |a'| && hi - k <= |v|
    requires forall p :: c + k <= p < c + hi ==> a[p] == a'[p]
    ensures ColDot(a, c, k, hi, v) == ColDot(a', c, k, hi, v)
    decreases hi
  {
    if hi > k {
      ColDotFrame(a, a', c, k, hi - 1, v);
    }
  }

  /** One entry x of a column after reflection, given the column's dot product d with v and v's entry w. */
  function Reflect(x: real, d: real, w: real): real
  {
    x - 2.0 * d * w
  }

  /**
   * The reflection I - 2 v v^T applied to rows [k, m) of the column that
   * starts at offset c; the dot product is taken before any entry is written.
   */
  function ReflectColumn(a: seq<real>, m: nat, c: nat, k: nat, v: seq<real>): (r: seq<real>)
    requires k <= m && c + m <= |a| && m - k <= |v|
    ensures |r| == |a|
  {
    var d := ColDot(a, c, k, m, v);
    seq(|a|, p requires 0 <= p < |a| => if c + k <= p < c + m then Reflect(a[p], d, v[p - c - k]) else a[p])
  }

  /** The effect of applyQ: the reflection applied, column by column, to columns [jmin, jmax). */
  function ApplyQSpec(a: seq<real>, m: nat, k: nat, jmin: nat, jmax: nat, v: seq<real>): (r: seq<real>)
    requires k <= m && jmin <= jmax && m * jmax <= |a| && m - k <= |v|
    ensures |r| == |a|
    decreases jmax - jmin
  {
    if jmax == jmin then a
    else
      assert m * (jmax - 1) + m == m * jmax;
      MulMonotone(m, jmax - 1, jmax);
      ReflectColumn(ApplyQSpec(a, m, k, jmin, jmax - 1, v), m, m * (jmax - 1), k, v)
  }

  /** Entry (i, j) lies in the column starting at m*j' exactly when j == j'. */
  lemma ColumnOf(m: nat, i: nat, j: nat, j': nat)
    requires i < m
    ensures (m * j' <= Idx(m, i, j) < m * j' + m) <==> j == j'
  {
    if j < j' {
      IdxBound(m, j', i, j);
    } else if j' < j {
      assert m * (j' + 1) == m * j' + m;
      MulMonotone(m, j' + 1, j);
    }
  }

  /** Reflecting column jc changes entry (i, j) only when j == jc and i >= k. */
  lemma ReflectColumnEntry(a: seq<real>, m: nat, k: nat, v: seq<real>, jc: nat, i: nat, j: nat)
    requires k <= m && m * jc + m <= |a| && m - k <= |v|
    requires i < m && Idx(m, i, j) < |a|
    ensures ReflectColumn(a, m, m * jc, k, v)[Idx(m, i, j)] ==
            if j == jc && k <= i then Reflect(a[Idx(m, i, j)], ColDot(a, m * jc, k, m, v), v[i - k])
            else a[Idx(m, i, j)]
  {
    ColumnOf(m, i, j, jc);
  }

  /** applyQ leaves entry (i, j) alone when i < k or column j lies outside [jmin, jmax). */
  lemma {:induction false} ApplyQFrame(a: seq<real>, m: nat, k: nat, jmin: nat, jmax: nat, v: seq<real>, i: nat, j: nat)
    requires k <= m && jmin <= jmax && m * jmax <= |a| && m - k <= |v|
    requires i < m && Idx(m, i, j) < |a|
    requires i < k || j < jmin || jmax <= j
    ensures ApplyQSpec(a, m, k, jmin, jmax, v)[Idx(m, i, j)] == a[Idx(m, i, j)]
    decreases jmax - jmin
  {
    if jmax > jmin {
      var jl := jmax - 1;
      ColumnFits(m, jl, jmax);
      ApplyQSpecStep(a, m, k, jmin, jl, v);
      ApplyQFrame(a, m, k, jmin, jl, v, i, j);
      ReflectColumnEntry(ApplyQSpec(a, m, k, jmin, jl, v), m, k, v, jl, i, j);
    }
  }

  /**
   * Inside its rows and columns applyQ sets entry (i, j) to
   * a[i, j] - 2 (v . a[k.., j]) v[i-k], the dot product taken over column j
   * as it was before the call.
   */
  lemma {:induction false} ApplyQTouched(a: seq<real>, m: nat, k: nat, jmin: nat, jmax: nat, v: seq<real>, i: nat, j: nat)
    requires k <= m && jmin <= jmax && m * jmax <= |a| && m - k <= |v|
    requires k <= i < m && jmin <= j < jmax
    ensures m * j + m <= |a| && Idx(m, i, j) < |a|
    ensures ApplyQSpec(a, m, k, jmin, jmax, v)[Idx(m, i, j)] == Reflect(a[Idx(m, i, j)], ColDot(a, m * j, k, m, v), v[i - k])
    decreases jmax - jmin
  {
    ColumnFits(m, j, jmax);
    var jl := jmax - 1;
    ColumnFits(m, jl, jmax);
    ApplyQSpecStep(a, m, k, jmin, jl, v);
    var prev := ApplyQSpec(a, m, k, jmin, jl, v);
    ReflectColumnEntry(prev, m, k, v, jl, i, j);
    if j < jl {
      ApplyQTouched(a, m, k, jmin, jl, v, i, j);
    } else {
      ColumnUntouched(a, m, k, jmin, jl, v, j);
      ApplyQFrame(a, m, k, jmin, jl, v, i, j);
    }
  }

  /** A column at or beyond jmax keeps its dot product with v through applyQ on [jmin, jmax). */
  lemma ColumnUntouched(a: seq<real>, m: nat, k: nat, jmin: nat, jmax: nat, v: seq<real>, j: nat)
    requires k <= m && jmin <= jmax && m * jmax <= |a| && m - k <= |v|
    requires jmax <= j && m * j + m <= |a|
    ensures ColDot(ApplyQSpec(a, m, k, jmin, jmax, v), m * j, k, m, v) == ColDot(a, m * j, k, m, v)
  {
    var prev := ApplyQSpec(a, m, k, jmin, jmax, v);
    forall p | m * j + k <= p < m * j + m
      ensures prev[p] == a[p]
    {
      assert p == Idx(m, p - m * j, j);
      ApplyQFrame(a, m, k, jmin, jmax, v, p - m * j, j);
    }
    ColDotFrame(prev, a, m * j, k, m, v);
  }

  /** One more column of applyQ is one more ReflectColumn. */
  lemma ApplyQSpecStep(a: seq<real>, m: nat, k: nat, jmin: nat, j: nat, v: seq<real>)
    requires k <= m && jmin <= j && m * j + m <= |a| && m - k <= |v|
    ensures m * j <= |a| && m * (j + 1) <= |a|
    ensures ApplyQSpec(a, m, k, jmin, j + 1, v) == ReflectColumn(ApplyQSpec(a, m, k, jmin, j, v), m, m * j, k, v)
  {
    assert m * (j + 1) == m * j + m;
  }

  lemma ColumnFits(m: nat, j: nat, cols: nat)
    requires j < cols
    ensures 0 <= m * j && m * j + m <= m * cols
  {
    assert m * (j + 1) == m * j + m;
    MulMonotone(m, j + 1, cols);
  }

  /**
   * applyQ: for each column j in [jmin, jmax), take the dot product of v
   * with rows [k, m) of the column, then subtract 2 * dot * v[i-k] from
   * each of those rows.  Only v[0 .. m-k) is read.
   */
  method ApplyQ(a: array<real>, m: nat, k: nat, jmin: nat, jmax: nat, v: array<real>)
    requires k <= m && jmin <= jmax && m * jmax <= a.Length && m - k <= v.Length
    requires a != v
    modifies a
    ensures a[..] == ApplyQSpec(old(a[..]), m, k, jmin, jmax, v[..m - k])
  {
    ghost var a0, w := a[..], v[..m - k];
    MulMonotone(m, jmin, jmax);
    var j := jmin;
    while j < jmax
      invariant jmin <= j <= jmax && m * j <= a.Length
      invariant v[..m - k] == w
      invariant a[..] == ApplyQSpec(a0, m, k, jmin, j, w)
    {
      ColumnFits(m, j, jmax);
      ApplyQSpecStep(a0, m, k, jmin, j, w);
      ghost var before := a[..];
      ReflectColumnOf(a, m, m * j, k, v);
      assert v[..m - k] == w;
      assert a[..] == ReflectColumn(before, m, m * j, k, w);
      assert a[..] == ApplyQSpec(a0, m, k, jmin, j + 1, w);
      j := j + 1;
    }
  }

  /** One pass of applyQ's outer loop: the dot product of column c with v, then the update of that column. */
  method ReflectColumnOf(a: array<real>, m: nat, c: nat, k: nat, v: array<real>)
    requires k <= m && c + m <= a.Length && m - k <= v.Length && a != v
    modifies a
    ensures a[..] == ReflectColumn(old(a[..]), m, c, k, v[..m - k])
  {
    var vDotMj := ColumnDot(a, m, c, k, v);
    ReflectColumnInPlace(a, m, c, k, v, vDotMj);
  }

  /** The dot-product loop of applyQ: v against rows [k, m) of the column at offset c. */
  method ColumnDot(a: array<real>, m: nat, c: nat, k: nat, v: array<real>) returns (d: real)
    requires k <= m && c + m <= a.Length && m - k <= v.Length
    ensures d == ColDot(a[..], c, k, m, v[..m - k])
  {
    d := 0.0;
    var i := k;
    while i < m
      invariant k <= i <= m
      invariant d == ColDot(a[..], c, k, i, v[..m - k])
    {
      d := d + v[i - k] * a[c + i];
      i := i + 1;
    }
  }

  /** Entry c+i of a reflected column, for a row i in [k, m). */
  lemma ReflectColumnAt(a: seq<real>, m: nat, c: nat, k: nat, v: seq<real>, i: nat)
    requires k <= i < m && c + m <= |a| && m - k <= |v|
    ensures ReflectColumn(a, m, c, k, v)[c + i] == Reflect(a[c + i], ColDot(a, c, k, m, v), v[i - k])
  {
  }

  /** The update loop of applyQ: a[c+i] -= 2 d v[i-k] for i in [k, m), with d the column's dot product. */
  method ReflectColumnInPlace(a: array<real>, m: nat, c: nat, k: nat, v: array<real>, d: real)
    requires k <= m && c + m <= a.Length && m - k <= v.Length && a != v
    requires d == ColDot(a[..], c, k, m, v[..m - k])
    modifies a
    ensures a[..] == ReflectColumn(old(a[..]), m, c, k, v[..m - k])
  {
    ghost var a0 := a[..];
    ghost var w := v[..m - k];
    ghost var r := ReflectColumn(a0, m, c, k, w);
    var i := k;
    while i < m
      invariant k <= i <= m
      invariant forall p :: 0 <= p < a.Length ==> a[p] == if c + k <= p < c + i then r[p] else a0[p]
    {
      ReflectColumnAt(a0, m, c, k, w, i);
      assert w[i - k] == v[i - k];
      a[c + i] := a[c + i] - 2.0 * d * v[i - k];
      i := i + 1;
    }
    assert forall p :: 0 <= p < a.Length ==> a[p] == r[p];
    assert a[..] == r;
  }

  /*---------------------------------------------------------------------
   * Factorisation
   *-------------------------------------------------------------------*/

  /** The transpose of the orthogonal factor and the transformed matrix holding R. */
  datatype Factored = Factored(qt: seq<real>, r: seq<real>)

  /** Threshold below which a reflector is applied without being normalised. */
  const NegligibleNorm: real := 1.0e-10

  /** Rows [k, m) of column k: the part of the column that step k eliminates. */
  function SubColumn(a: seq<real>, m: nat, k: nat): (x: seq<real>)
    requires k < m && m * (k + 1) <= |a|
    ensures |x| == m - k
    ensures forall t :: 0 <= t < m - k ==> x[t] == a[Idx(m, k + t, k)]
  {
    a[Idx(m, k, k) .. m * k + m]
  }

  /** The vector with its first entry moved away from zero by its norm (+norm when x[0] >= 0, -norm when x[0] < 0). */
  function Shifted(x: seq<real>, norm: seq<real> -> real): (y: seq<real>)
    requires |x| > 0
    ensures |y| == |x|
  {
    x[0 := x[0] + SignedBy(norm(x), x[0])]
  }

  /** len times the sign of s, where zero counts as positive: the factor (s < 0 ? -1 : 1) of householderQR. */
  function SignedBy(len: real, s: real): (r: real)
    ensures r == len * (if s < 0.0 then -1.0 else 1.0)
  {
    if s < 0.0 then -len else len
  }

  /**
   * The Householder vector of step k: the shifted sub-column, divided by
   * its own norm when that exceeds NegligibleNorm and left as it is otherwise.
   */
  function Reflector(a: seq<real>, m: nat, k: nat, norm: seq<real> -> real): (v: seq<real>)
    requires k < m && m * (k + 1) <= |a|
    ensures |v| == m - k
  {
    var v1 := Shifted(SubColumn(a, m, k), norm);
    var len1 := norm(v1);
    if len1 > NegligibleNorm then Normalised(v1, len1) else v1
  }

  /** Every entry of v divided by len: each entry times len gives v back. */
  function Normalised(v: seq<real>, len: real): (w: seq<real>)
    requires len != 0.0
    ensures |w| == |v|
    ensures forall t :: 0 <= t < |v| ==> w[t] * len == v[t]
  {
    var w := seq(|v|, t requires 0 <= t < |v| => v[t] / len);
    forall t | 0 <= t < |v|
      ensures w[t] * len == v[t]
    {
      DivCancel(v[t], len, w[t]);
    }
    w
  }

  /**
   * With a non-negative norm the shift never cancels: the first entry keeps
   * its sign (zero counts as positive) and grows in magnitude by exactly the
   * norm; every other entry is kept.
   */
  lemma ShiftAwayFromZero(x: seq<real>, norm: seq<real> -> real)
    requires |x| > 0 && norm(x) >= 0.0
    ensures var y := Shifted(x, norm);
            y[1..] == x[1..] &&
            (x[0] < 0.0 ==> y[0] == x[0] - norm(x) && y[0] < 0.0) &&
            (x[0] >= 0.0 ==> y[0] == x[0] + norm(x) && y[0] >= 0.0)
  {
  }

  /**
   * When the shifted sub-column's norm exceeds NegligibleNorm, the reflector
   * is that column normalised: each entry times the norm gives the column back.
   */
  lemma ReflectorNormalised(a: seq<real>, m: nat, k: nat, norm: seq<real> -> real, t: nat)
    requires k < m && m * (k + 1) <= |a| && t < m - k
    requires norm(Shifted(SubColumn(a, m, k), norm)) > NegligibleNorm
    ensures Reflector(a, m, k, norm)[t] * norm(Shifted(SubColumn(a, m, k), norm)) == Shifted(SubColumn(a, m, k), norm)[t]
  {
  }

  /** Otherwise the reflector is the shifted sub-column itself, unnormalised. */
  lemma ReflectorUnnormalised(a: seq<real>, m: nat, k: nat, norm: seq<real> -> real)
    requires k < m && m * (k + 1) <= |a|
    requires norm(Shifted(SubColumn(a, m, k), norm)) <= NegligibleNorm
    ensures Reflector(a, m, k, norm) == Shifted(SubColumn(a, m, k), norm)
  {
  }

  /** Elimination step k: build the reflector from column k of r and apply it to r's columns [k, n) and all of qt. */
  function QRStep(f: Factored, m: nat, n: nat, k: nat, norm: seq<real> -> real): (g: Factored)
    requires k < n <= m && |f.qt| == m * m && |f.r| == m * n
    ensures |g.qt| == m * m && |g.r| == m * n
  {
    MulMonotone(m, k + 1, n);
    var v := Reflector(f.r, m, k, norm);
    Factored(ApplyQSpec(f.qt, m, k, 0, m, v), ApplyQSpec(f.r, m, k, k, n, v))
  }

  /** Steps k, k+1, .., n-1 of householderQR applied to the state f. */
  function QRStepsFrom(f: Factored, m: nat, n: nat, k: nat, norm: seq<real> -> real): (g: Factored)
    requires k <= n <= m && |f.qt| == m * m && |f.r| == m * n
    ensures |g.qt| == m * m && |g.r| == m * n
    decreases n - k
  {
    if k == n then f else QRStepsFrom(QRStep(f, m, n, k, norm), m, n, k + 1, norm)
  }

  /** The result of householderQR on an m-by-n matrix a: all n steps, starting from (identity, a). */
  function QR(a: seq<real>, m: nat, n: nat, norm: seq<real> -> real): (f: Factored)
    requires n <= m && |a| == m * n
    ensures |f.qt| == m * m && |f.r| == m * n
  {
    QRStepsFrom(Factored(Identity(m), a), m, n, 0, norm)
  }

  /** Step k leaves rows [0, k) and columns [0, k) of r alone. */
  lemma QRStepKeepsR(f: Factored, m: nat, n: nat, k: nat, norm: seq<real> -> real, i: nat, j: nat)
    requires k < n <= m && |f.qt| == m * m && |f.r| == m * n
    requires i < m && j < n && (i < k || j < k)
    ensures Idx(m, i, j) < m * n && QRStep(f, m, n, k, norm).r[Idx(m, i, j)] == f.r[Idx(m, i, j)]
  {
    IdxBound(m, n, i, j);
    MulMonotone(m, k + 1, n);
    ApplyQFrame(f.r, m, k, k, n, Reflector(f.r, m, k, norm), i, j);
  }

  /** Step k leaves rows [0, k) of qt alone. */
  lemma QRStepKeepsQt(f: Factored, m: nat, n: nat, k: nat, norm: seq<real> -> real, i: nat, j: nat)
    requires k < n <= m && |f.qt| == m * m && |f.r| == m * n
    requires i < k && j < m
    ensures Idx(m, i, j) < m * m && QRStep(f, m, n, k, norm).qt[Idx(m, i, j)] == f.qt[Idx(m, i, j)]
  {
    IdxBound(m, m, i, j);
    MulMonotone(m, k + 1, n);
    ApplyQFrame(f.qt, m, k, 0, m, Reflector(f.r, m, k, norm), i, j);
  }

  /** g agrees with f on rows [0, s) and columns [0, s) of r and on rows [0, s) of qt. */
  predicate SettledUpTo(f: Factored, g: Factored, m: nat, n: nat, s: nat)
    requires |f.qt| == |g.qt| == m * m && |f.r| == |g.r| == m * n
  {
    (forall i, j {:trigger Idx(m, i, j)} :: 0 <= i < m && 0 <= j < n && (i < s || j < s) && Idx(m, i, j) < m * n ==>
       g.r[Idx(m, i, j)] == f.r[Idx(m, i, j)]) &&
    (forall i, j {:trigger Idx(m, i, j)} :: 0 <= i < s && i < m && 0 <= j < m && Idx(m, i, j) < m * m ==>
       g.qt[Idx(m, i, j)] == f.qt[Idx(m, i, j)])
  }

  lemma SettledTransitive(f: Factored, g: Factored, h: Factored, m: nat, n: nat, s: nat)
    requires |f.qt| == |g.qt| == |h.qt| == m * m && |f.r| == |g.r| == |h.r| == m * n
    requires SettledUpTo(f, g, m, n, s) && SettledUpTo(g, h, m, n, s)
    ensures SettledUpTo(f, h, m, n, s)
  {
  }

  /** Step k settles everything before row and column s, for any s <= k. */
  lemma QRStepSettles(f: Factored, m: nat, n: nat, k: nat, norm: seq<real> -> real, s: nat)
    requires k < n <= m && |f.qt| == m * m && |f.r| == m * n && s <= k
    ensures SettledUpTo(f, QRStep(f, m, n, k, norm), m, n, s)
  {
    var g := QRStep(f, m, n, k, norm);
    forall i, j | 0 <= i < m && 0 <= j < n && (i < s || j < s) && Idx(m, i, j) < m * n
      ensures g.r[Idx(m, i, j)] == f.r[Idx(m, i, j)]
    {
      QRStepKeepsR(f, m, n, k, norm, i, j);
    }
    forall i, j | 0 <= i < s && i < m && 0 <= j < m && Idx(m, i, j) < m * m
      ensures g.qt[Idx(m, i, j)] == f.qt[Idx(m, i, j)]
    {
      QRStepKeepsQt(f, m, n, k, norm, i, j);
    }
  }

  lemma SettledMonotone(f: Factored, g: Factored, m: nat, n: nat, s: nat, s': nat)
    requires |f.qt| == |g.qt| == m * m && |f.r| == |g.r| == m * n
    requires s' <= s && SettledUpTo(f, g, m, n, s)
    ensures SettledUpTo(f, g, m, n, s')
  {
  }

  /**
   * Once step k is about to run, rows [0, k) of qt and r and columns
   * [0, k) of r are final: the remaining steps leave them alone.
   */
  lemma {:induction false} QRStepsSettle(f: Factored, m: nat, n: nat, k: nat, norm: seq<real> -> real)
    requires k <= n <= m && |f.qt| == m * m && |f.r| == m * n
    ensures SettledUpTo(f, QRStepsFrom(f, m, n, k, norm), m, n, k)
    decreases n - k, 1
  {
    if k == n {
      SettledReflexive(f, m, n, k);
    } else {
      QRStepsSettleStep(f, m, n, k, norm);
    }
  }

  lemma {:induction false} QRStepsSettleStep(f: Factored, m: nat, n: nat, k: nat, norm: seq<real> -> real)
    requires k < n <= m && |f.qt| == m * m && |f.r| == m * n
    ensures SettledUpTo(f, QRStepsFrom(f, m, n, k, norm), m, n, k)
    decreases n - k, 0
  {
    var g := QRStep(f, m, n, k, norm);
    QRStepSettles(f, m, n, k, norm, k);
    QRStepsSettle(g, m, n, k + 1, norm);
    SettledChain(f, g, QRStepsFrom(g, m, n, k + 1, norm), m, n, k);
  }

  /** Settling up to s and then up to s + 1 settles up to s. */
  lemma SettledChain(f: Factored, g: Factored, h: Factored, m: nat, n: nat, s: nat)
    requires |f.qt| == |g.qt| == |h.qt| == m * m && |f.r| == |g.r| == |h.r| == m * n
    requires SettledUpTo(f, g, m, n, s) && SettledUpTo(g, h, m, n, s + 1)
    ensures SettledUpTo(f, h, m, n, s)
  {
    SettledMonotone(g, h, m, n, s + 1, s);
    SettledTransitive(f, g, h, m, n, s);
  }

  lemma SettledReflexive(f: Factored, m: nat, n: nat, s: nat)
    requires |f.qt| == m * m && |f.r| == m * n
    ensures SettledUpTo(f, f, m, n, s)
  {
  }

  /** Overwrites the m-by-m buffer with the identity matrix, row by row. */
  method SetIdentity(m: nat, buf: array<real>)
    requires m * m <= buf.Length
    modifies buf
    ensures buf[..m * m] == Identity(m)
    ensures forall p :: m * m <= p < buf.Length ==> buf[p] == old(buf[p])
  {
    var i := 0;
    while i < m
      invariant 0 <= i <= m
      invariant forall p :: m * m <= p < buf.Length ==> buf[p] == old(buf[p])
      invariant forall i', j' {:trigger Idx(m, i', j')} :: 0 <= i' < i && 0 <= j' < m && Idx(m, i', j') < buf.Length ==>
                  buf[Idx(m, i', j')] == if i' == j' then 1.0 else 0.0
    {
      SetIdentityRow(m, i, buf);
      i := i + 1;
    }
    IdentityByEntries(m, buf[..m * m]);
  }

  /** The inner loop of the identity fill: row i, every column. */
  method SetIdentityRow(m: nat, i: nat, buf: array<real>)
    requires i < m && m * m <= buf.Length
    modifies buf
    ensures forall p :: m * m <= p < buf.Length ==> buf[p] == old(buf[p])
    ensures forall i', j' {:trigger Idx(m, i', j')} :: 0 <= i' < m && 0 <= j' && i' != i && Idx(m, i', j') < buf.Length ==>
              buf[Idx(m, i', j')] == old(buf[Idx(m, i', j')])
    ensures forall j' {:trigger Idx(m, i, j')} :: 0 <= j' < m ==>
              (Idx(m, i, j') < buf.Length && buf[Idx(m, i, j')] == if i == j' then 1.0 else 0.0)
  {
    var j := 0;
    while j < m
      invariant 0 <= j <= m
      invariant forall p :: m * m <= p < buf.Length ==> buf[p] == old(buf[p])
      invariant forall i', j' {:trigger Idx(m, i', j')} :: 0 <= i' < m && 0 <= j' && i' != i && Idx(m, i', j') < buf.Length ==>
                  buf[Idx(m, i', j')] == old(buf[Idx(m, i', j')])
      invariant forall j' {:trigger Idx(m, i, j')} :: 0 <= j' < j ==>
                  (Idx(m, i, j') < buf.Length && buf[Idx(m, i, j')] == if i == j' then 1.0 else 0.0)
    {
      IdxBound(m, m, i, j);
      forall i', j' | 0 <= i' < m && 0 <= j' && (i' != i || j' != j)
        ensures Idx(m, i', j') != Idx(m, i, j)
      {
        if Idx(m, i', j') == Idx(m, i, j) {
          IdxInjective(m, i', j', i, j);
        }
      }
      buf[Idx(m, i, j)] := if i == j then 1.0 else 0.0;
      j := j + 1;
    }
  }

  /**
   * householderQR: sets qt to the identity, then for k = 0 .. n-1 builds the
   * reflector of column k and applies it to columns [k, n) of a and to all
   * m columns of qt, rows [k, m) in both.
   */
  method HouseholderQR(m: nat, n: nat, qt: array<real>, a: array<real>, norm: seq<real> -> real)
    requires n <= m && qt.Length == m * m && a.Length == m * n
    requires qt != a
    modifies qt, a
    ensures Factored(qt[..], a[..]) == QR(old(a[..]), m, n, norm)
  {
    var v := new real[m];
    SetIdentity(m, qt);
    assert qt[..] == qt[..m * m];
    ghost var a0 := a[..];
    var k := 0;
    while k < n
      invariant 0 <= k <= n
      invariant QRStepsFrom(Factored(qt[..], a[..]), m, n, k, norm) == QR(a0, m, n, norm)
    {
      HouseholderStep(m, n, k, qt, a, v, norm);
      k := k + 1;
    }
  }

  /** One pass of householderQR's main loop. */
  method HouseholderStep(m: nat, n: nat, k: nat, qt: array<real>, a: array<real>, v: array<real>, norm: seq<real> -> real)
    requires k < n <= m && qt.Length == m * m && a.Length == m * n && v.Length == m
    requires qt != a && qt != v && a != v
    modifies qt, a, v
    ensures Factored(qt[..], a[..]) == QRStep(Factored(old(qt[..]), old(a[..])), m, n, k, norm)
  {
    MulMonotone(m, k + 1, n);
    BuildReflector(a, m, k, v, norm);
    ApplyQ(a, m, k, k, n, v);
    ApplyQ(qt, m, k, 0, m, v);
  }

  /**
   * The reflector construction of householderQR's step k: copy a[k.., k]
   * into v, push v[0] away from zero by the copy's norm, and divide by the
   * new norm when that exceeds NegligibleNorm.  Entries of v past m-k keep
   * whatever the previous step left there.
   */
  method BuildReflector(a: array<real>, m: nat, k: nat, v: array<real>, norm: seq<real> -> real)
    requires k < m && m * (k + 1) <= a.Length && v.Length == m && v != a
    modifies v
    ensures v[..m - k] == Reflector(a[..], m, k, norm)
  {
    assert Idx(m, k, k) + (m - k) == m * k + m == m * (k + 1);
    forall t | 0 <= t < m - k {
      v[t] := a[Idx(m, k, k) + t];
    }
    ghost var v0 := v[..m - k];
    assert v0 == SubColumn(a[..], m, k);
    var vLen := norm(v[..m - k]);
    v[0] := v[0] + vLen * (if v[0] < 0.0 then -1.0 else 1.0);
    ghost var shifted := v[..m - k];
    assert v[0] == v0[0] + SignedBy(norm(v0), v0[0]);
    assert shifted == Shifted(v0, norm);
    vLen := norm(v[..m - k]);
    if vLen > NegligibleNorm {
      var t := 0;
      while t < m - k
        invariant 0 <= t <= m - k
        invariant forall t' :: 0 <= t' < t ==> v[t'] == shifted[t'] / vLen
        invariant forall t' :: t <= t' < m - k ==> v[t'] == shifted[t']
      {
        v[t] := v[t] / vLen;
        t := t + 1;
      }
      assert v[..m - k] == Normalised(shifted, vLen);
    }
  }

  /*---------------------------------------------------------------------
   * Solvers built on the factorisation
   *-------------------------------------------------------------------*/

  /** The opening of both solvers: copy the m*n entries of a into a fresh buffer r and factor it in place. */
  method FactorCopy(m: nat, n: nat, a: array<real>, norm: seq<real> -> real) returns (qt: array<real>, r: array<real>)
    requires n <= m && m * n <= a.Length
    ensures fresh(qt) && fresh(r) && qt != r
    ensures Factored(qt[..], r[..]) == QR(a[..m * n], m, n, norm)
  {
    r := new real[m * n];
    forall p | 0 <= p < m * n {
      r[p] := a[p];
    }
    assert r[..] == a[..m * n];
    qt := new real[m * m];
    HouseholderQR(m, n, qt, r, norm);
  }

  /** The inner loop of the Q^T products: row i of the m-by-m matrix qt times y[yOff .. yOff+m). */
  method RowTimes(qt: array<real>, m: nat, i: nat, y: array<real>, yOff: nat) returns (sum: real)
    requires i < m && m * m <= qt.Length && yOff + m <= y.Length
    ensures sum == RowSum(qt[..], m, i, 0, m, y[yOff .. yOff + m])
  {
    ghost var ys := y[yOff .. yOff + m];
    sum := 0.0;
    var j := 0;
    while j < m
      invariant 0 <= j <= m
      invariant sum == RowSum(qt[..], m, i, 0, j, ys)
    {
      MulMonotone(m, j + 1, m);
      IdxBound(m, m, i, j);
      sum := sum + qt[Idx(m, i, j)] * y[yOff + j];
      j := j + 1;
    }
  }

  /** The Q^T product loops: out[i] = sum over j of qt[i, j] * y[yOff + j], for every row i. */
  method TransformRhs(qt: array<real>, m: nat, y: array<real>, yOff: nat, out: array<real>)
    requires m * m <= qt.Length && yOff + m <= y.Length && out.Length == m
    requires out != qt && out != y
    modifies out
    ensures out[..] == MatVec(qt[..], m, m, y[yOff .. yOff + m])
  {
    var i := 0;
    while i < m
      invariant 0 <= i <= m
      invariant forall i' :: 0 <= i' < i ==> out[i'] == RowSum(qt[..], m, i', 0, m, y[yOff .. yOff + m])
    {
      out[i] := RowTimes(qt, m, i, y, yOff);
      i := i + 1;
    }
  }

  /**
   * solveLinear_leastSquares: factor a copy of a as Q R, form Q^T b, and
   * back-substitute R x = Q^T b.  x may share its buffer with a or b.
   */
  method SolveLinearLeastSquares(m: nat, n: nat, x: array<real>, a: array<real>, b: array<real>, norm: seq<real> -> real)
    requires n <= m && m * n <= a.Length && m <= b.Length && n <= x.Length
    modifies x
    ensures forall p :: n <= p < x.Length ==> x[p] == old(x[p])
    ensures var f := QR(old(a[..m * n]), m, n, norm);
            DiagonalNonzero(f.r, m, n) ==> SolvesUpper(f.r, m, n, MatVec(f.qt, m, m, old(b[..m])), x[..n])
  {
    ghost var a0, b0 := a[..m * n], b[..m];
    var qt, r := FactorCopy(m, n, a, norm);
    ghost var f := QR(a0, m, n, norm);
    ghost var y := MatVec(f.qt, m, m, b0);
    var qtb := new real[m];
    assert b[0 .. m] == b0;
    TransformRhs(qt, m, b, 0, qtb);
    assert qtb[..] == y;
    BackSubstituteUpperTriangular(m, n, x, 0, r, qtb);
    assert r[..] == f.r && qtb[..] == y && x[0 .. n] == x[..n];
  }

  /** solveLinear: the square case of solveLinear_leastSquares. */
  method SolveLinear(n: nat, x: array<real>, a: array<real>, b: array<real>, norm: seq<real> -> real)
    requires n * n <= a.Length && n <= b.Length && n <= x.Length
    modifies x
    ensures forall p :: n <= p < x.Length ==> x[p] == old(x[p])
    ensures var f := QR(old(a[..n * n]), n, n, norm);
            DiagonalNonzero(f.r, n, n) ==> SolvesUpper(f.r, n, n, MatVec(f.qt, n, n, old(b[..n])), x[..n])
  {
    SolveLinearLeastSquares(n, n, x, a, b, norm);
  }

  /**
   * matrixInverse: factor a copy of a as Q R, fill ainv with the identity,
   * then for each column j replace column j of ainv (a unit vector) by the
   * solution of R x = Q^T e_j.  ainv may share its buffer with a.
   */
  method MatrixInverse(n: nat, ainv: array<real>, a: array<real>, norm: seq<real> -> real)
    requires n * n <= a.Length && n * n <= ainv.Length
    modifies ainv
    ensures forall p :: n * n <= p < ainv.Length ==> ainv[p] == old(ainv[p])
    ensures var f := QR(old(a[..n * n]), n, n, norm);
            DiagonalNonzero(f.r, n, n) ==>
              forall j :: 0 <= j < n ==> SolvesUpper(f.r, n, n, MatVec(f.qt, n, n, Unit(n, j)), Column(ainv[..], n, n, j))
  {
    ghost var a0 := a[..n * n];
    var qt, r := FactorCopy(n, n, a, norm);
    ghost var f := QR(a0, n, n, norm);
    var qty := new real[n];
    SetIdentity(n, ainv);
    forall j' | 0 <= j' < n
      ensures Column(ainv[..], n, n, j') == Unit(n, j')
    {
      ColumnOfPrefix(ainv[..], n, n, j');
      IdentityColumn(n, j');
    }
    InvertColumns(n, ainv, r, qt, qty);
  }

  /** matrixInverse's column loop, run on an ainv whose n columns are the unit vectors. */
  method InvertColumns(n: nat, ainv: array<real>, r: array<real>, qt: array<real>, qty: array<real>)
    requires n * n <= ainv.Length && r.Length == n * n && qt.Length == n * n && qty.Length == n
    requires ainv != r && ainv != qt && ainv != qty && qty != qt && qty != r
    requires forall j :: 0 <= j < n ==> Column(ainv[..], n, n, j) == Unit(n, j)
    modifies ainv, qty
    ensures forall p :: n * n <= p < ainv.Length ==> ainv[p] == old(ainv[p])
    ensures DiagonalNonzero(r[..], n, n) ==>
              forall j :: 0 <= j < n ==> SolvesUpper(r[..], n, n, MatVec(qt[..], n, n, Unit(n, j)), Column(ainv[..], n, n, j))
  {
    var j := 0;
    while j < n
      invariant 0 <= j <= n
      invariant forall p :: n * n <= p < ainv.Length ==> ainv[p] == old(ainv[p])
      invariant forall j' :: j <= j' < n ==> Column(ainv[..], n, n, j') == Unit(n, j')
      invariant DiagonalNonzero(r[..], n, n) ==>
                  forall j' :: 0 <= j' < j ==> SolvesUpper(r[..], n, n, MatVec(qt[..], n, n, Unit(n, j')), Column(ainv[..], n, n, j'))
    {
      ghost var before := ainv[..];
      ColumnFits(n, j, n);
      InverseColumn(n, j, ainv, r, qt, qty);
      OtherColumnsKept(before, ainv[..], n, n, j);
      j := j + 1;
    }
  }

  /** One pass of matrixInverse's column loop: qty = Q^T (column j), then back-substitute into column j. */
  method InverseColumn(n: nat, j: nat, ainv: array<real>, r: array<real>, qt: array<real>, qty: array<real>)
    requires j < n && n * n <= ainv.Length && r.Length == n * n && qt.Length == n * n && qty.Length == n
    requires ainv != r && ainv != qt && ainv != qty && qty != qt && qty != r
    modifies ainv, qty
    ensures forall p :: 0 <= p < ainv.Length && !(n * j <= p < n * j + n) ==> ainv[p] == old(ainv[p])
    ensures DiagonalNonzero(r[..], n, n) ==>
              SolvesUpper(r[..], n, n, MatVec(qt[..], n, n, Column(old(ainv[..]), n, n, j)), Column(ainv[..], n, n, j))
  {
    ColumnFits(n, j, n);
    TransformRhs(qt, n, ainv, n * j, qty);
    BackSubstituteUpperTriangular(n, n, ainv, n * j, r, qty);
  }
}
