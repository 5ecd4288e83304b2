/** NestedArray<T> of array/NestedArray.h: an array of arrays stored as offsets plus one flat array. */
module NestedArray {

  datatype Option<T> = None | Some(value: T)

  /** Row i of the nested array occupies flat[offsets[i] .. offsets[i+1]). */
  datatype Nested<T> = Nested(offsets: seq<int>, flat: seq<T>)
  {
    /** Offsets start at 0, never decrease and end at the size of the flat array. */
    ghost predicate WellFormed()
    {
      && |offsets| >= 1
      && offsets[0] == 0
      && (forall i, j :: 0 <= i <= j < |offsets| ==> offsets[i] <= offsets[j])
      && offsets[|offsets| - 1] == |flat|
    }

    /** size(): the number of rows. */
    function Size(): (n: int)
      requires WellFormed()
      ensures n >= 0 && n == |offsets| - 1
    {
      |offsets| - 1
    }

    /** operator[](i): the slice of flat holding row i. */
    function Row(i: int): (r: seq<T>)
      requires WellFormed() && 0 <= i < Size()
      ensures |r| == offsets[i + 1] - offsets[i]
      ensures forall j :: 0 <= j < |r| ==> r[j] == flat[offsets[i] + j]
    {
      flat[offsets[i]..offsets[i + 1]]
    }

    /** size(i): the length of row i. */
    function SizeOf(i: int): (n: int)
      requires WellFormed() && 0 <= i < Size()
      ensures n >= 0 && n == |Row(i)|
    {
      offsets[i + 1] - offsets[i]
    }

    /** valid(i): the unsigned comparison rejects negative i as well as i >= size(). */
    predicate Valid(i: int)
      requires WellFormed() && Int32(i) && Int32(Size())
      ensures Valid(i) <==> 0 <= i < Size()
    {
      Unsigned32(i) < Unsigned32(Size())
    }

    /** total_size(): the last offset, which is the number of stored elements. */
    function TotalSize(): (n: int)
      requires WellFormed()
      ensures n == |flat|
    {
      offsets[|offsets| - 1]
    }

    /** The bound that operator()(i, j) asserts, as written: it admits j == size(i). */
    predicate AtAsWrittenAccepts(i: int, j: int)
      requires WellFormed() && 0 <= i < Size()
    {
      0 <= j && offsets[i] + j <= offsets[i + 1]
    }

    /** operator()(i, j) within the intended bound 0 <= j < size(i): element j of row i. */
    function At(i: int, j: int): (x: T)
      requires WellFormed() && 0 <= i < Size()
      requires 0 <= j < SizeOf(i)
      ensures x == Row(i)[j]
    {
      flat[offsets[i] + j]
    }
  }

  predicate Int32(x: int)
  {
    -0x8000_0000 <= x < 0x8000_0000
  }

  /** The cast of a 32-bit int to unsigned: negative values wrap to 2^32 + x. */
  function Unsigned32(x: int): (u: int)
    requires Int32(x)
    ensures 0 <= u < 0x1_0000_0000
    ensures x >= 0 ==> u == x
    ensures x < 0 ==> u >= 0x8000_0000
  {
    if x >= 0 then x else x + 0x1_0000_0000
  }

  /** The default constructor: no rows. */
  function EmptyNested<T>(): (a: Nested<T>)
    ensures a.WellFormed() && a.Size() == 0 && a.TotalSize() == 0
  {
    Nested([0], [])
  }

  /** Offsets of rows with the given lengths: prefix sums starting at 0. */
  function OffsetsOf(lengths: seq<nat>): (o: seq<int>)
    ensures |o| == |lengths| + 1
    ensures o[0] == 0
    ensures forall i :: 0 <= i < |lengths| ==> o[i + 1] == o[i] + lengths[i]
    ensures forall i, j :: 0 <= i <= j < |o| ==> o[i] <= o[j]
  {
    if |lengths| == 0 then [0]
    else
      var p := OffsetsOf(lengths[..|lengths| - 1]);
      assert forall i :: 0 <= i < |lengths| - 1 ==> lengths[..|lengths| - 1][i] == lengths[i];
      p + [p[|p| - 1] + lengths[|lengths| - 1]]
  }

  /**
   * The bound operator()(i, j) asserts lets j == size(i) through, which reads the first
   * element of the next row: in [[10], [20]], (0, 1) passes and yields row 1's 20.
   */
  lemma AtAsWrittenReadsNextRow()
    ensures Nested([0, 1, 2], [10, 20]).WellFormed()
    ensures Nested([0, 1, 2], [10, 20]).AtAsWrittenAccepts(0, 1)
    ensures 1 == Nested([0, 1, 2], [10, 20]).SizeOf(0)
    ensures Nested([0, 1, 2], [10, 20]).flat[0 + 1] == Nested([0, 1, 2], [10, 20]).Row(1)[0]
  {
  }

  /** reshape_like(flat, other): other's offsets over a new flat array of the same size, or an error. */
  function ReshapeLike<T, S>(flat: seq<T>, other: Nested<S>): (r: Option<Nested<T>>)
    requires other.WellFormed()
    ensures r.Some? <==> |flat| == |other.flat|
    ensures r.Some? ==> r.value.WellFormed() && r.value.flat == flat && r.value.offsets == other.offsets
    ensures r.Some? ==> forall i :: 0 <= i < other.Size() ==> r.value.SizeOf(i) == other.SizeOf(i)
  {
    if |other.flat| == |flat| then Some(Nested(other.offsets, flat)) else None
  }

  /** copy(other): offsets are the prefix sums of the row lengths, and row i is other[i]. */
  method Copy<T>(other: seq<seq<T>>) returns (a: Nested<T>)
    ensures a.WellFormed()
    ensures a.Size() == |other|
    ensures forall i :: 0 <= i < |other| ==> a.offsets[i + 1] == a.offsets[i] + |other[i]|
    ensures forall i :: 0 <= i < |other| ==> a.Row(i) == other[i]
  {
    var n := |other|;
    var offsets := [0];
    var i := 0;
    while i < n
      invariant 0 <= i <= n
      invariant |offsets| == i + 1 && offsets[0] == 0
      invariant forall k :: 0 <= k < i ==> offsets[k + 1] == offsets[k] + |other[k]|
      invariant forall k, l :: 0 <= k <= l <= i ==> offsets[k] <= offsets[l]
    {
      offsets := offsets + [offsets[i] + |other[i]|];
      i := i + 1;
    }
    var flat: seq<T> := [];
    i := 0;
    while i < n
      invariant 0 <= i <= n
      invariant |flat| == offsets[i]
      invariant forall k :: 0 <= k < i ==> flat[offsets[k]..offsets[k + 1]] == other[k]
    {
      flat := flat + other[i];
      assert flat[offsets[i]..offsets[i + 1]] == other[i];
      i := i + 1;
    }
    a := Nested(offsets, flat);
  }

  /** Row lengths add up to total_size(). */
  function SumSizes<T>(a: Nested<T>, k: int): (s: int)
    requires a.WellFormed() && 0 <= k <= a.Size()
    ensures s == a.offsets[k]
  {
    if k == 0 then 0 else SumSizes(a, k - 1) + a.SizeOf(k - 1)
  }

  /** Every flat position lies in exactly one row. */
  lemma RowOf<T>(a: Nested<T>, p: int) returns (i: int)
    requires a.WellFormed() && 0 <= p < a.TotalSize()
    ensures 0 <= i < a.Size() && a.offsets[i] <= p < a.offsets[i + 1]
    ensures forall i' :: 0 <= i' < a.Size() && a.offsets[i'] <= p < a.offsets[i' + 1] ==> i' == i
  {
    i := 0;
    while a.offsets[i + 1] <= p
      invariant 0 <= i < a.Size() && a.offsets[i] <= p
      decreases a.Size() - i
    {
      i := i + 1;
    }
  }
}
