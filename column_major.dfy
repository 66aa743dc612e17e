/**
 * Column-major dense matrices stored in flat buffers: entry (i, j) of a
 * matrix with m rows lives at offset i + m*j.  The index arithmetic and the
 * finite sums shared by the QR routines are defined here once.
 */
module ColumnMajor {

  /** Offset of entry (i, j) in a column-major buffer with m rows. */
  function Idx(m: nat, i: nat, j: nat): nat
  {
    i + m * j
  }

  /** More columns never mean a smaller offset. */
  lemma MulMonotone(m: nat, s: nat, t: nat)
    requires s <= t
    ensures m * s <= m * t
  {
    assert m * t == m * s + m * (t - s);
  }

  /** Every entry of the first `cols` columns lies inside an m*cols buffer. */
  lemma IdxBound(m: nat, cols: nat, i: nat, j: nat)
    requires i < m && j < cols
    ensures Idx(m, i, j) + 1 <= m * cols
    ensures Idx(m, i, j) + (m - i) <= m * cols
  {
    assert m * (j + 1) == m * j + m;
    MulMonotone(m, j + 1, cols);
  }

  /** Distinct entries have distinct offsets. */
  lemma IdxInjective(m: nat, i: nat, j: nat, i': nat, j': nat)
    requires i < m && i' < m
    requires Idx(m, i, j) == Idx(m, i', j')
    ensures i == i' && j == j'
  {
    if j < j' {
      IdxBound(m, j', i, j);
      assert false;
    } else if j' < j {
      IdxBound(m, j, i', j');
      assert false;
    }
  }

  /** Every offset inside the first `cols` columns is the offset of some entry (i, j). */
  lemma {:induction false} OffsetSplit(m: nat, cols: nat, p: nat) returns (i: nat, j: nat)
    requires p < m * cols
    ensures i < m && j < cols && p == Idx(m, i, j)
    decreases cols
  {
    assert m * cols == m * (cols - 1) + m;
    if p < m * (cols - 1) {
      i, j := OffsetSplit(m, cols - 1, p);
    } else {
      i, j := p - m * (cols - 1), cols - 1;
    }
  }

  /** Sum over j in [lo, hi) of a[i, j] * x[j]: row i of a times x, restricted to columns [lo, hi). */
  function RowSum(a: seq<real>, m: nat, i: nat, lo: nat, hi: nat, x: seq<real>): real
    requires i < m && m * hi <= |a| && hi <= |x|
    decreases hi
  {
    if hi <= lo then 0.0
    else
      IdxBound(m, hi, i, hi - 1);
      MulMonotone(m, hi - 1, hi);
      RowSum(a, m, i, lo, hi - 1, x) + a[Idx(m, i, hi - 1)] * x[hi - 1]
  }

  /** RowSum reads x only at [lo, hi) and a only in row i, columns [lo, hi). */
  lemma {:induction false} RowSumFrame(a: seq<real>, a': seq<real>, m: nat, i: nat, lo: nat, hi: nat,
                                       x: seq<real>, x': seq<real>)
    requires i < m && m * hi <= |a| && hi <= |x| && m * hi <= |a'| && hi <= |x'|
    requires forall j :: lo <= j < hi ==> x[j] == x'[j]
    requires forall j {:trigger Idx(m, i, j)} :: lo <= j < hi && Idx(m, i, j) < |a| && Idx(m, i, j) < |a'| ==>
               a[Idx(m, i, j)] == a'[Idx(m, i, j)]
    ensures RowSum(a, m, i, lo, hi, x) == RowSum(a', m, i, lo, hi, x')
    decreases hi
  {
    if lo < hi {
      MulMonotone(m, hi - 1, hi);
      IdxBound(m, hi, i, hi - 1);
      RowSumFrame(a, a', m, i, lo, hi - 1, x, x');
      assert a[Idx(m, i, hi - 1)] == a'[Idx(m, i, hi - 1)];
    }
  }

  /** Peeling the first term of a RowSum. */
  lemma {:induction false} RowSumFirst(a: seq<real>, m: nat, i: nat, lo: nat, hi: nat, x: seq<real>)
    requires i < m && m * hi <= |a| && hi <= |x| && lo < hi
    ensures Idx(m, i, lo) < |a|
    ensures RowSum(a, m, i, lo, hi, x) == a[Idx(m, i, lo)] * x[lo] + RowSum(a, m, i, lo + 1, hi, x)
    decreases hi
  {
    IdxBound(m, hi, i, lo);
    if lo + 1 < hi {
      MulMonotone(m, hi - 1, hi);
      RowSumFirst(a, m, i, lo, hi - 1, x);
    }
  }

  /** The product of the m-by-cols matrix a with the vector x. */
  function MatVec(a: seq<real>, m: nat, cols: nat, x: seq<real>): (y: seq<real>)
    requires m * cols <= |a| && cols <= |x|
    ensures |y| == m
    ensures forall i :: 0 <= i < m ==> y[i] == RowSum(a, m, i, 0, cols, x)
  {
    seq(m, i requires 0 <= i < m => RowSum(a, m, i, 0, cols, x))
  }

  /** Column j of an m-by-cols matrix as a vector: the offsets [m*j, m*j + m). */
  function Column(a: seq<real>, m: nat, cols: nat, j: nat): (c: seq<real>)
    requires j < cols && m * cols <= |a|
    ensures |c| == m && m * j + m <= |a|
    ensures forall i :: 0 <= i < m ==> c[i] == a[m * j + i]
  {
    assert m * (j + 1) == m * j + m;
    MulMonotone(m, j + 1, cols);
    a[m * j .. m * j + m]
  }

  /** Two different columns occupy disjoint ranges of offsets. */
  lemma ColumnsDisjoint(m: nat, j: nat, j': nat, p: nat)
    requires j != j' && m * j' <= p < m * j' + m
    ensures !(m * j <= p < m * j + m)
  {
    if j < j' {
      assert m * (j + 1) == m * j + m;
      MulMonotone(m, j + 1, j');
    } else {
      assert m * (j' + 1) == m * j' + m;
      MulMonotone(m, j' + 1, j);
    }
  }

  /** The j-th unit vector of length m. */
  function Unit(m: nat, j: nat): (e: seq<real>)
    ensures |e| == m
    ensures forall i :: 0 <= i < m ==> e[i] == if i == j then 1.0 else 0.0
  {
    seq(m, i requires 0 <= i < m => if i == j then 1.0 else 0.0)
  }

  /** The first `cols` columns of the m-by-m identity: the unit vectors e_0 .. e_(cols-1), one after another. */
  function UnitColumns(m: nat, cols: nat): (s: seq<real>)
    ensures |s| == m * cols
    decreases cols
  {
    if cols == 0 then []
    else
      assert m * cols == m * (cols - 1) + m;
      UnitColumns(m, cols - 1) + Unit(m, cols - 1)
  }

  /** The m-by-m identity matrix in column-major order. */
  function Identity(m: nat): (id: seq<real>)
    ensures |id| == m * m
  {
    UnitColumns(m, m)
  }

  /** Entry (i, j) of the unit columns is 1 on the diagonal and 0 elsewhere. */
  lemma {:induction false} UnitColumnsEntry(m: nat, cols: nat, i: nat, j: nat)
    requires i < m && j < cols
    ensures Idx(m, i, j) < m * cols
    ensures UnitColumns(m, cols)[Idx(m, i, j)] == if i == j then 1.0 else 0.0
    decreases cols
  {
    IdxBound(m, cols, i, j);
    assert m * cols == m * (cols - 1) + m;
    if j < cols - 1 {
      UnitColumnsEntry(m, cols - 1, i, j);
      IdxBound(m, cols - 1, i, j);
    }
  }

  /** Entry (i, j) of the identity is 1 on the diagonal and 0 elsewhere. */
  lemma IdentityEntry(m: nat, i: nat, j: nat)
    requires i < m && j < m
    ensures Idx(m, i, j) < m * m
    ensures Identity(m)[Idx(m, i, j)] == if i == j then 1.0 else 0.0
  {
    UnitColumnsEntry(m, m, i, j);
  }

  /** A buffer is the identity exactly when every entry (i, j) is 1 on the diagonal and 0 elsewhere. */
  lemma IdentityByEntries(m: nat, s: seq<real>)
    requires |s| == m * m
    requires forall i, j {:trigger Idx(m, i, j)} :: 0 <= i < m && 0 <= j < m && Idx(m, i, j) < |s| ==>
               s[Idx(m, i, j)] == if i == j then 1.0 else 0.0
    ensures s == Identity(m)
  {
    forall p | 0 <= p < m * m
      ensures s[p] == Identity(m)[p]
    {
      var i, j := OffsetSplit(m, m, p);
      IdentityEntry(m, i, j);
    }
  }

  /** Column j of the identity is the j-th unit vector. */
  lemma IdentityColumn(m: nat, j: nat)
    requires j < m
    ensures Column(Identity(m), m, m, j) == Unit(m, j)
  {
    forall i | 0 <= i < m
      ensures Column(Identity(m), m, m, j)[i] == Unit(m, j)[i]
    {
      IdentityEntry(m, i, j);
    }
  }

  /** A column depends only on the first m*cols entries of the buffer. */
  lemma ColumnOfPrefix(s: seq<real>, m: nat, cols: nat, j: nat)
    requires j < cols && m * cols <= |s|
    ensures Column(s, m, cols, j) == Column(s[..m * cols], m, cols, j)
  {
  }

  /** Changing only the offsets of column j leaves every other column as it was. */
  lemma OtherColumnsKept(s: seq<real>, s': seq<real>, m: nat, cols: nat, j: nat)
    requires |s| == |s'| && m * cols <= |s| && j < cols
    requires forall p :: 0 <= p < |s| && !(m * j <= p < m * j + m) ==> s'[p] == s[p]
    ensures forall j' :: 0 <= j' < cols && j' != j ==> Column(s', m, cols, j') == Column(s, m, cols, j')
  {
    forall j' | 0 <= j' < cols && j' != j
      ensures Column(s', m, cols, j') == Column(s, m, cols, j')
    {
      forall i | 0 <= i < m
        ensures Column(s', m, cols, j')[i] == Column(s, m, cols, j')[i]
      {
        ColumnsDisjoint(m, j, j', m * j' + i);
      }
    }
  }
}
