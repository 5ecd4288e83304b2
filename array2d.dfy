/** Array<T,2> of geode/array/Array2d.h: an m by n array stored row-major in one flat array. */
module Array2d {

  /** The row-major position of entry (i, j) in an array with n columns. */
  function Index(i: int, j: int, n: int): int
  {
    i * n + j
  }

  /** Multiplying by a non-negative n preserves order. */
  lemma {:induction false} MulMonotone(a: int, b: int, n: int)
    requires 0 <= a <= b && n >= 0
    ensures a * n <= b * n
    decreases b - a
  {
    if a < b {
      MulMonotone(a, b - 1, n);
      assert (b - 1) * n + n == b * n;
    }
  }

  /** Row-major positions of an m by n array lie in [0, m*n). */
  lemma RowMajorBound(i: int, j: int, m: int, n: int)
    requires 0 <= i < m && 0 <= j < n
    ensures 0 <= Index(i, j, n) < m * n
  {
    MulMonotone(0, i, n);
    MulMonotone(i + 1, m, n);
    assert (i + 1) * n == i * n + n;
  }

  /** Distinct (i, j) give distinct row-major positions. */
  lemma RowMajorInjective(i: int, j: int, i': int, j': int, n: int)
    requires 0 <= i && 0 <= i' && 0 <= j < n && 0 <= j' < n
    requires Index(i, j, n) == Index(i', j', n)
    ensures i == i' && j == j'
  {
    if i < i' {
      MulMonotone(i + 1, i', n);
      assert false;
    } else if i' < i {
      MulMonotone(i' + 1, i, n);
      assert false;
    }
  }

  /** With n columns, a row-major position is below m*n exactly when its row is below m. */
  lemma RowMajorPrefix(i: int, j: int, m: int, n: int)
    requires 0 <= i && 0 <= m && 0 <= j < n
    ensures Index(i, j, n) < m * n <==> i < m
  {
    if i < m {
      RowMajorBound(i, j, m, n);
    } else {
      MulMonotone(m, i, n);
    }
  }

  function Min(a: int, b: int): int
  {
    if a <= b then a else b
  }

  predicate Int32(x: int)
  {
    -0x8000_0000 <= x < 0x8000_0000
  }

  /** The cast of a 32-bit int to unsigned: negative values wrap to 2^32 + x. */
  function Unsigned32(x: int): int
    requires Int32(x)
  {
    if x >= 0 then x else x + 0x1_0000_0000
  }

  /**
   * f is flat resized from m by n to mNew by nNew without initializing: entry (i, j) of the
   * overlapping block keeps its value, and nothing is known of the other entries.
   */
  ghost predicate CopiedCells<T>(f: seq<T>, flat: seq<T>, m: int, n: int, mNew: int, nNew: int)
  {
    && |f| == mNew * nNew
    && forall i, j :: 0 <= i < Min(m, mNew) && 0 <= j < Min(n, nNew) && 0 <= Index(i, j, n) < |flat| ==>
         && 0 <= Index(i, j, nNew) < |f|
         && f[Index(i, j, nNew)] == flat[Index(i, j, n)]
  }

  /**
   * f is flat resized from m by n to mNew by nNew: entry (i, j) of the overlapping block
   * keeps its value when copying, and every other entry is zero.
   */
  ghost predicate ResizedCells<T>(f: seq<T>, flat: seq<T>, m: int, n: int, mNew: int, nNew: int, copy: bool, zero: T)
  {
    && |f| == mNew * nNew
    && forall i, j :: 0 <= i < mNew && 0 <= j < nNew ==>
         && 0 <= Index(i, j, nNew) < |f|
         && f[Index(i, j, nNew)] ==
              if copy && i < Min(m, mNew) && j < Min(n, nNew) && 0 <= Index(i, j, n) < |flat|
              then flat[Index(i, j, n)] else zero
  }

  /**
   * Resizing the flat array alone is exact when the column count is unchanged, when nothing
   * is stored, when nothing will be stored, or when nothing is copied.
   */
  lemma FlatResizeCells<T>(f: seq<T>, flat: seq<T>, m: int, n: int, mNew: int, nNew: int, copy: bool, zero: T)
    requires m >= 0 && n >= 0 && |flat| == m * n && mNew >= 0 && nNew >= 0
    requires nNew == n || |flat| == 0 || mNew * nNew == 0 || !copy
    requires var keep := if copy then Min(|flat|, mNew * nNew) else 0;
      f == flat[..keep] + seq(mNew * nNew - keep, _ => zero)
    ensures ResizedCells(f, flat, m, n, mNew, nNew, copy, zero)
  {
    var keep := if copy then Min(|flat|, mNew * nNew) else 0;
    forall i, j | 0 <= i < mNew && 0 <= j < nNew
      ensures 0 <= Index(i, j, nNew) < |f|
      ensures f[Index(i, j, nNew)] ==
        if copy && i < Min(m, mNew) && j < Min(n, nNew) && 0 <= Index(i, j, n) < |flat|
        then flat[Index(i, j, n)] else zero
    {
      RowMajorBound(i, j, mNew, nNew);
      if copy && nNew == n {
        RowMajorPrefix(i, j, m, n);
        RowMajorPrefix(i, j, mNew, n);
      } else if copy && |flat| == 0 && i < Min(m, mNew) && j < Min(n, nNew) {
        RowMajorBound(i, j, m, n);
      }
    }
  }

  /**
   * Progress of the nested copy loop: entries of the overlapping block before (i, j) in
   * row-major order hold their old values, all other entries are still zero.
   */
  ghost predicate Filled<T>(s: seq<T>, flat: seq<T>, n: int, mNew: int, nNew: int, n2: int, i: int, j: int, zero: T)
  {
    && |s| == mNew * nNew
    && forall i', j' :: 0 <= i' < mNew && 0 <= j' < nNew ==>
         && 0 <= Index(i', j', nNew) < |s|
         && s[Index(i', j', nNew)] ==
              if ((i' < i && j' < n2) || (i' == i && j' < j)) && 0 <= Index(i', j', n) < |flat|
              then flat[Index(i', j', n)] else zero
  }

  lemma FilledStart<T>(flat: seq<T>, n: int, mNew: int, nNew: int, n2: int, zero: T)
    requires mNew >= 0 && nNew >= 0
    ensures Filled(seq(mNew * nNew, _ => zero), flat, n, mNew, nNew, n2, 0, 0, zero)
  {
    forall i', j' | 0 <= i' < mNew && 0 <= j' < nNew
      ensures 0 <= Index(i', j', nNew) < mNew * nNew
    {
      RowMajorBound(i', j', mNew, nNew);
    }
  }

  /** Copying entry (i, j) advances the loop by one position. */
  lemma FilledStep<T>(s: seq<T>, flat: seq<T>, m: int, n: int, mNew: int, nNew: int, n2: int, i: int, j: int, zero: T)
    requires m >= 0 && n >= 0 && |flat| == m * n
    requires 0 <= i < Min(m, mNew) && 0 <= j < n2 && n2 == Min(n, nNew)
    requires Filled(s, flat, n, mNew, nNew, n2, i, j, zero)
    ensures 0 <= Index(i, j, nNew) < |s| && 0 <= Index(i, j, n) < |flat|
    ensures Filled(s[Index(i, j, nNew) := flat[Index(i, j, n)]], flat, n, mNew, nNew, n2, i, j + 1, zero)
  {
    RowMajorBound(i, j, mNew, nNew);
    RowMajorBound(i, j, m, n);
    var s' := s[Index(i, j, nNew) := flat[Index(i, j, n)]];
    forall i', j' | 0 <= i' < mNew && 0 <= j' < nNew
      ensures 0 <= Index(i', j', nNew) < |s'|
      ensures s'[Index(i', j', nNew)] ==
        if ((i' < i && j' < n2) || (i' == i && j' < j + 1)) && 0 <= Index(i', j', n) < |flat|
        then flat[Index(i', j', n)] else zero
    {
      if Index(i', j', nNew) == Index(i, j, nNew) {
        RowMajorInjective(i', j', i, j, nNew);
      }
    }
  }

  /** Finishing row i is starting row i + 1. */
  lemma FilledRow<T>(s: seq<T>, flat: seq<T>, n: int, mNew: int, nNew: int, n2: int, i: int, zero: T)
    requires Filled(s, flat, n, mNew, nNew, n2, i, n2, zero)
    ensures Filled(s, flat, n, mNew, nNew, n2, i + 1, 0, zero)
  {
  }

  /** After the last overlapping row the array is the resized one. */
  lemma FilledDone<T>(s: seq<T>, flat: seq<T>, m: int, n: int, mNew: int, nNew: int, zero: T)
    requires m >= 0 && n >= 0 && |flat| == m * n
    requires Filled(s, flat, n, mNew, nNew, Min(n, nNew), Min(m, mNew), 0, zero)
    ensures ResizedCells(s, flat, m, n, mNew, nNew, true, zero)
  {
  }

  /** The nested copy loop of resize: a fresh mNew by nNew array receiving the overlapping block. */
  method CopyOverlap<T>(flat: seq<T>, m: int, n: int, mNew: int, nNew: int, zero: T) returns (f: seq<T>)
    requires m >= 0 && n >= 0 && |flat| == m * n && mNew >= 0 && nNew >= 0
    ensures ResizedCells(f, flat, m, n, mNew, nNew, true, zero)
  {
    var newFlat := new T[mNew * nNew](_ => zero);
    var m2, n2 := Min(m, mNew), Min(n, nNew);
    assert newFlat[..] == seq(mNew * nNew, _ => zero);
    FilledStart(flat, n, mNew, nNew, n2, zero);
    for i := 0 to m2
      invariant Filled(newFlat[..], flat, n, mNew, nNew, n2, i, 0, zero)
    {
      for j := 0 to n2
        invariant Filled(newFlat[..], flat, n, mNew, nNew, n2, i, j, zero)
      {
        FilledStep(newFlat[..], flat, m, n, mNew, nNew, n2, i, j, zero);
        newFlat[Index(i, j, nNew)] := flat[Index(i, j, n)];
      }
      FilledRow(newFlat[..], flat, n, mNew, nNew, n2, i, zero);
    }
    f := newFlat[..];
    FilledDone(f, flat, m, n, mNew, nNew, zero);
  }

  /** Growing with copying and then shrinking back to the old sizes restores every entry. */
  lemma ResizeGrowShrink<T>(flat: seq<T>, f1: seq<T>, f2: seq<T>, m: int, n: int, m1: int, n1: int, zero: T)
    requires m >= 0 && n >= 0 && |flat| == m * n && m <= m1 && n <= n1
    requires ResizedCells(f1, flat, m, n, m1, n1, true, zero)
    requires ResizedCells(f2, f1, m1, n1, m, n, true, zero)
    ensures f2 == flat
  {
    forall k | 0 <= k < |flat|
      ensures f2[k] == flat[k]
    {
      ResizeGrowShrinkAt(flat, f1, f2, m, n, m1, n1, zero, k);
    }
  }

  /** One entry of the round trip: the cell at row-major position k comes back unchanged. */
  lemma ResizeGrowShrinkAt<T>(flat: seq<T>, f1: seq<T>, f2: seq<T>, m: int, n: int, m1: int, n1: int, zero: T, k: int)
    requires m >= 0 && n >= 0 && |flat| == m * n && m <= m1 && n <= n1
    requires ResizedCells(f1, flat, m, n, m1, n1, true, zero)
    requires ResizedCells(f2, f1, m1, n1, m, n, true, zero)
    requires 0 <= k < |flat|
    ensures k < |f2| && f2[k] == flat[k]
  {
    var i, j := k / n, k % n;
    assert k == Index(i, j, n);
    RowMajorPrefix(i, j, m, n);
    RowMajorBound(i, j, m1, n1);
  }

  class Array2d<T> {
    var flat: seq<T>
    var m: int
    var n: int
    /** The value T() that freshly created elements receive. */
    const zero: T

    ghost predicate Valid()
      reads this
    {
      m >= 0 && n >= 0 && |flat| == m * n
    }

    /** Array(): the empty 0 by 0 array. */
    constructor Empty(zero: T)
      ensures Valid() && m == 0 && n == 0 && flat == [] && this.zero == zero
    {
      flat, m, n := [], 0, 0;
      this.zero := zero;
    }

    /** Array(m, n): flat storage of m*n default elements. */
    constructor (m: int, n: int, zero: T)
      requires m >= 0 && n >= 0
      ensures Valid() && this.m == m && this.n == n && this.zero == zero
      ensures |flat| == m * n && forall k :: 0 <= k < |flat| ==> flat[k] == zero
    {
      this.flat := seq(m * n, _ => zero);
      this.m, this.n := m, n;
      this.zero := zero;
    }

    /** sizes(). */
    function Sizes(): (s: (int, int))
      reads this
      ensures s.0 == m && s.1 == n
    {
      (m, n)
    }

    /** total_size(): m*n, the number of stored elements. */
    function TotalSize(): (t: int)
      requires Valid()
      reads this
      ensures t == |flat|
    {
      m * n
    }

    /** valid(i, j): the unsigned comparisons accept exactly 0 <= i < m and 0 <= j < n. */
    predicate ValidIndex(i: int, j: int)
      requires Valid() && Int32(i) && Int32(j) && Int32(m) && Int32(n)
      reads this
      ensures ValidIndex(i, j) <==> 0 <= i < m && 0 <= j < n
    {
      Unsigned32(i) < Unsigned32(m) && Unsigned32(j) < Unsigned32(n)
    }

    /** row(i) and operator[](i): the n elements of row i. */
    function Row(i: int): (r: seq<T>)
      requires Valid() && 0 <= i < m
      reads this
      ensures |r| == n
      ensures forall j :: 0 <= j < n ==> 0 <= Index(i, j, n) < |flat| && r[j] == flat[Index(i, j, n)]
    {
      MulMonotone(0, i, n);
      MulMonotone(i + 1, m, n);
      assert (i + 1) * n == i * n + n;
      var r := flat[i * n..(i + 1) * n];
      assert forall j :: 0 <= j < n ==> r[j] == flat[Index(i, j, n)];
      r
    }

    /** operator()(i, j): element j of row i. */
    function At(i: int, j: int): (x: T)
      requires Valid() && 0 <= i < m && 0 <= j < n
      reads this
      ensures x == Row(i)[j]
    {
      RowMajorBound(i, j, m, n);
      flat[i * n + j]
    }

    /**
     * resize(m_new, n_new, initialize, copy): the same sizes change nothing; otherwise the
     * sizes become (m_new, n_new), and every entry of the overlapping block keeps its value
     * when copying. When initializing every other entry is zero; otherwise those entries
     * hold whatever the storage held, and the model promises nothing about them.
     */
    method Resize(mNew: int, nNew: int, initialize: bool, copy: bool)
      requires Valid() && mNew >= 0 && nNew >= 0
      modifies this
      ensures Valid() && m == mNew && n == nNew
      ensures old(m) == mNew && old(n) == nNew ==> flat == old(flat)
      ensures !(old(m) == mNew && old(n) == nNew) && initialize ==>
                ResizedCells(flat, old(flat), old(m), old(n), mNew, nNew, copy, zero)
      ensures !(old(m) == mNew && old(n) == nNew) && copy ==> CopiedCells(flat, old(flat), old(m), old(n), mNew, nNew)
      ensures copy && nNew == old(n) ==> flat[..Min(|old(flat)|, |flat|)] == old(flat)[..Min(|old(flat)|, |flat|)]
    {
      if mNew == m && nNew == n {
        return;
      }
      var newSize := mNew * nNew;
      if nNew == n || |flat| == 0 || newSize == 0 || !copy {
        // Array<T>::resize keeps the leading elements when copying and fills the rest.
        var keep := if copy then Min(|flat|, newSize) else 0;
        var f := flat[..keep] + seq(newSize - keep, _ => zero);
        FlatResizeCells(f, flat, m, n, mNew, nNew, copy, zero);
        flat := f;
      } else {
        flat := CopyOverlap(flat, m, n, mNew, nNew, zero);
      }
      m := mNew;
      n := nNew;
    }

    /** append(row): a new last row at index old m, returned; earlier rows are kept. */
    method Append(row: seq<T>) returns (i: int)
      requires Valid() && |row| == n
      modifies this
      ensures Valid() && i == old(m) && m == old(m) + 1 && n == old(n)
      ensures flat == old(flat) + row
    {
      i := m;
      ghost var before := flat;
      Resize(m + 1, n, false, true);
      assert (i + 1) * n == i * n + n;
      assert flat[..i * n] == before;
      flat := flat[..i * n] + row;
    }
  }
}
