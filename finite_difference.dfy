/**
 * The vector arithmetic of the Newton engine's finite-difference operator:
 * points along a direction and the central difference of F there.
 */
module FiniteDifference {
  import ColumnMajor

  /** F writes exactly n outputs for n inputs. */
  ghost predicate KeepsSize(F: seq<real> -> seq<real>, n: nat)
  {
    forall u: seq<real> :: |u| == n ==> |F(u)| == n
  }

  /** xs + s * ds, entry by entry. */
  function AddScaled(xs: seq<real>, ds: seq<real>, s: real): (ys: seq<real>)
    requires |xs| == |ds|
    ensures |ys| == |xs|
  {
    seq(|xs|, i requires 0 <= i < |xs| => xs[i] + ds[i] * s)
  }

  /** xs - s * ds, entry by entry: the point alpha = s along the Newton step. */
  function SubScaled(xs: seq<real>, ds: seq<real>, s: real): (ys: seq<real>)
    requires |xs| == |ds|
    ensures |ys| == |xs|
  {
    seq(|xs|, i requires 0 <= i < |xs| => xs[i] - ds[i] * s)
  }

  /** A zero step stays at xs. */
  lemma SubScaledZero(xs: seq<real>, ds: seq<real>)
    requires |xs| == |ds|
    ensures SubScaled(xs, ds, 0.0) == xs
  {
  }

  /**
   * krylovLinearFunc's result: (F(xs + eps vs) - F(xs - eps vs)) / (2 eps),
   * the central difference approximating the Jacobian of F at xs times vs.
   */
  function CentralDifference(F: seq<real> -> seq<real>, n: nat, xs: seq<real>, vs: seq<real>, eps: real): (ys: seq<real>)
    requires KeepsSize(F, n) && |xs| == n && |vs| == n && eps != 0.0
    ensures |ys| == n
  {
    var fp, fm := F(AddScaled(xs, vs, eps)), F(SubScaled(xs, vs, eps));
    seq(n, i requires 0 <= i < n => (fp[i] - fm[i]) / (2.0 * eps))
  }

  /** F is the affine map u |-> A u + c for the n-by-n column-major matrix A. */
  ghost predicate IsAffine(F: seq<real> -> seq<real>, n: nat, A: seq<real>, c: seq<real>)
  {
    |A| == n * n && |c| == n &&
    forall u: seq<real> :: |u| == n ==> |F(u)| == n && forall i :: 0 <= i < n ==> F(u)[i] == ColumnMajor.RowSum(A, n, i, 0, n, u) + c[i]
  }

  /** An affine F at xs + eps vs and at xs - eps vs differs, in entry i, by 2 eps times row i of A times vs. */
  lemma AffineDifference(F: seq<real> -> seq<real>, n: nat, A: seq<real>, c: seq<real>,
                         xs: seq<real>, vs: seq<real>, eps: real, i: nat)
    requires IsAffine(F, n, A, c) && |xs| == n && |vs| == n && i < n
    ensures KeepsSize(F, n)
    ensures F(AddScaled(xs, vs, eps))[i] - F(SubScaled(xs, vs, eps))[i] == 2.0 * eps * ColumnMajor.RowSum(A, n, i, 0, n, vs)
  {
    RowSumAddScaled(A, n, i, n, xs, vs, eps);
    RowSumSubScaled(A, n, i, n, xs, vs, eps);
  }

  /** Entry i of the central difference. */
  lemma CentralDifferenceAt(F: seq<real> -> seq<real>, n: nat, xs: seq<real>, vs: seq<real>, eps: real, i: nat)
    requires KeepsSize(F, n) && |xs| == n && |vs| == n && eps != 0.0 && i < n
    ensures CentralDifference(F, n, xs, vs, eps)[i] == (F(AddScaled(xs, vs, eps))[i] - F(SubScaled(xs, vs, eps))[i]) / (2.0 * eps)
  {
  }

  /** Entry i of the central difference is row i of A times vs when the two values of F differ there by 2 eps times that. */
  lemma CentralDifferenceEntry(F: seq<real> -> seq<real>, n: nat, A: seq<real>, xs: seq<real>, vs: seq<real>, eps: real, i: nat)
    requires KeepsSize(F, n) && |xs| == n && |vs| == n && eps != 0.0 && i < n && |A| == n * n
    requires F(AddScaled(xs, vs, eps))[i] - F(SubScaled(xs, vs, eps))[i] == 2.0 * eps * ColumnMajor.RowSum(A, n, i, 0, n, vs)
    ensures CentralDifference(F, n, xs, vs, eps)[i] == ColumnMajor.RowSum(A, n, i, 0, n, vs)
  {
    HalveDifference(F(AddScaled(xs, vs, eps))[i], F(SubScaled(xs, vs, eps))[i], ColumnMajor.RowSum(A, n, i, 0, n, vs), eps);
  }

  /** (fp - fm) / (2 eps) == s when fp - fm == 2 eps s. */
  lemma HalveDifference(fp: real, fm: real, s: real, eps: real)
    requires eps != 0.0 && fp - fm == 2.0 * eps * s
    ensures (fp - fm) / (2.0 * eps) == s
  {
  }

  /** A row sum is linear in the vector: row i times (xs + eps vs) is row i times xs plus eps times row i times vs. */
  lemma {:induction false} RowSumAddScaled(A: seq<real>, n: nat, i: nat, hi: nat, xs: seq<real>, vs: seq<real>, eps: real)
    requires i < n && n * n <= |A| && hi <= n && |xs| == n && |vs| == n
    ensures n * hi <= |A|
    ensures ColumnMajor.RowSum(A, n, i, 0, hi, AddScaled(xs, vs, eps)) ==
            ColumnMajor.RowSum(A, n, i, 0, hi, xs) + eps * ColumnMajor.RowSum(A, n, i, 0, hi, vs)
    decreases hi
  {
    ColumnMajor.MulMonotone(n, hi, n);
    if hi > 0 {
      RowSumAddScaled(A, n, i, hi - 1, xs, vs, eps);
      ColumnMajor.IdxBound(n, n, i, hi - 1);
      Distribute(A[ColumnMajor.Idx(n, i, hi - 1)], xs[hi - 1], vs[hi - 1], eps);
    }
  }

  /** Row i times (xs - eps vs) is row i times xs minus eps times row i times vs. */
  lemma {:induction false} RowSumSubScaled(A: seq<real>, n: nat, i: nat, hi: nat, xs: seq<real>, vs: seq<real>, eps: real)
    requires i < n && n * n <= |A| && hi <= n && |xs| == n && |vs| == n
    ensures n * hi <= |A|
    ensures ColumnMajor.RowSum(A, n, i, 0, hi, SubScaled(xs, vs, eps)) ==
            ColumnMajor.RowSum(A, n, i, 0, hi, xs) - eps * ColumnMajor.RowSum(A, n, i, 0, hi, vs)
    decreases hi
  {
    ColumnMajor.MulMonotone(n, hi, n);
    if hi > 0 {
      RowSumSubScaled(A, n, i, hi - 1, xs, vs, eps);
      ColumnMajor.IdxBound(n, n, i, hi - 1);
      Distribute(A[ColumnMajor.Idx(n, i, hi - 1)], xs[hi - 1], vs[hi - 1], eps);
    }
  }

  /** One term of a row sum, distributed over x +- e v. */
  lemma Distribute(a: real, x: real, v: real, e: real)
    ensures a * (x + v * e) == a * x + e * (a * v)
    ensures a * (x - v * e) == a * x - e * (a * v)
  {
  }

  /**
   * The central difference is exact on affine maps: it returns A vs, the
   * Jacobian-vector product, whatever the base point and the epsilon.
   */
  lemma CentralDifferenceOfAffine(F: seq<real> -> seq<real>, n: nat, A: seq<real>, c: seq<real>,
                                  xs: seq<real>, vs: seq<real>, eps: real)
    requires IsAffine(F, n, A, c) && |xs| == n && |vs| == n && eps != 0.0
    ensures KeepsSize(F, n)
    ensures CentralDifference(F, n, xs, vs, eps) == ColumnMajor.MatVec(A, n, n, vs)
  {
    forall i | 0 <= i < n
      ensures CentralDifference(F, n, xs, vs, eps)[i] == ColumnMajor.MatVec(A, n, n, vs)[i]
    {
      CentralDifferenceOfAffineEntry(F, n, A, c, xs, vs, eps, i);
    }
  }

  /** Entry i of CentralDifferenceOfAffine. */
  lemma CentralDifferenceOfAffineEntry(F: seq<real> -> seq<real>, n: nat, A: seq<real>, c: seq<real>,
                                       xs: seq<real>, vs: seq<real>, eps: real, i: nat)
    requires IsAffine(F, n, A, c) && |xs| == n && |vs| == n && eps != 0.0 && i < n
    ensures KeepsSize(F, n)
    ensures CentralDifference(F, n, xs, vs, eps)[i] == ColumnMajor.RowSum(A, n, i, 0, n, vs)
  {
    AffineDifference(F, n, A, c, xs, vs, eps, i);
    CentralDifferenceEntry(F, n, A, xs, vs, eps, i);
  }
}
