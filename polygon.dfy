/** closed_contours_next of geometry/polygon.h: successor links that close every contour of a nested array. */
module Polygon {
  import opened NestedArray

  /** Inside each contour a position links to the next one, and the last position links back to the first. */
  ghost predicate IsContourNext<T>(nested: Nested<T>, next: seq<int>)
    requires nested.WellFormed()
  {
    && |next| == nested.TotalSize()
    && (forall j, i :: 0 <= j < nested.Size() && nested.offsets[j] <= i < nested.offsets[j + 1] - 1 ==> next[i] == i + 1)
    && (forall j :: 0 <= j < nested.Size() && nested.offsets[j] < nested.offsets[j + 1] ==>
          next[nested.offsets[j + 1] - 1] == nested.offsets[j])
  }

  /** closed_contours_next(nested): fill i-1 -> i everywhere, then close each non-empty contour. */
  method ClosedContoursNext<T>(nested: Nested<T>) returns (next: seq<int>)
    requires nested.WellFormed()
    ensures IsContourNext(nested, next)
    ensures nested.TotalSize() == 0 ==> next == []
  {
    var n := nested.TotalSize();
    var result := new int[n];
    if n == 0 {
      return result[..];
    }
    LinkForward(result);
    ForwardInterior(nested, result[..]);
    CloseAll(nested, result);
    next := result[..];
    ClosedIsContourNext(nested, next);
  }

  lemma ClosedIsContourNext<T>(nested: Nested<T>, r: seq<int>)
    requires nested.WellFormed() && InteriorLinked(nested, r) && ClosedBefore(nested, r, nested.Size())
    ensures IsContourNext(nested, r)
  {
  }

  /** The first loop of closed_contours_next: next[i - 1] = i for every i from 1 on. */
  method LinkForward(result: array<int>)
    requires result.Length >= 1
    modifies result
    ensures forall k :: 0 <= k < result.Length - 1 ==> result[k] == k + 1
  {
    for i := 1 to result.Length
      invariant forall k :: 0 <= k < i - 1 ==> result[k] == k + 1
    {
      result[i - 1] := i;
    }
  }

  /** The second loop of closed_contours_next: the last position of each non-empty contour is
      pointed back at its first. */
  method CloseAll<T>(nested: Nested<T>, result: array<int>)
    requires nested.WellFormed() && InteriorLinked(nested, result[..])
    modifies result
    ensures InteriorLinked(nested, result[..]) && ClosedBefore(nested, result[..], nested.Size())
  {
    for j := 0 to nested.Size()
      // Contours before j are closed; positions of later contours still hold k + 1.
      invariant InteriorLinked(nested, result[..]) && ClosedBefore(nested, result[..], j)
    {
      var lo, hi := nested.offsets[j], nested.offsets[j + 1];
      ghost var before := result[..];
      if lo < hi {
        result[hi - 1] := lo;
      }
      CloseContour(nested, before, result[..], j);
    }
  }

  /** After the first loop every interior position of every contour links forward. */
  lemma ForwardInterior<T>(nested: Nested<T>, r: seq<int>)
    requires nested.WellFormed() && |r| == nested.TotalSize()
    requires forall k :: 0 <= k < |r| - 1 ==> r[k] == k + 1
    ensures InteriorLinked(nested, r)
  {
    forall j, k | 0 <= j < nested.Size() && nested.offsets[j] <= k < nested.offsets[j + 1] - 1
      ensures r[k] == k + 1
    {
      assert nested.offsets[j + 1] <= nested.offsets[|nested.offsets| - 1];
    }
  }

  /** Every position but the last of each contour links to the position after it. */
  ghost predicate InteriorLinked<T>(nested: Nested<T>, r: seq<int>)
    requires nested.WellFormed()
  {
    && |r| == nested.TotalSize()
    && forall j, k :: 0 <= j < nested.Size() && nested.offsets[j] <= k < nested.offsets[j + 1] - 1 ==> r[k] == k + 1
  }

  /** The last position of each non-empty contour before j links back to its first. */
  ghost predicate ClosedBefore<T>(nested: Nested<T>, r: seq<int>, j: int)
    requires nested.WellFormed() && |r| == nested.TotalSize() && j <= nested.Size()
  {
    forall j' :: 0 <= j' < j && nested.offsets[j'] < nested.offsets[j' + 1] ==>
      r[nested.offsets[j' + 1] - 1] == nested.offsets[j']
  }

  /** Closing contour j touches no interior position and no other contour's last position. */
  lemma CloseContour<T>(nested: Nested<T>, r: seq<int>, r': seq<int>, j: int)
    requires nested.WellFormed() && 0 <= j < nested.Size()
    requires InteriorLinked(nested, r) && ClosedBefore(nested, r, j)
    requires nested.offsets[j] < nested.offsets[j + 1] ==>
      r' == r[nested.offsets[j + 1] - 1 := nested.offsets[j]]
    requires nested.offsets[j] >= nested.offsets[j + 1] ==> r' == r
    ensures InteriorLinked(nested, r') && ClosedBefore(nested, r', j + 1)
  {
    var lo, hi := nested.offsets[j], nested.offsets[j + 1];
    if lo < hi {
      forall j', k | 0 <= j' < nested.Size() && nested.offsets[j'] <= k < nested.offsets[j' + 1] - 1
        ensures r'[k] == k + 1
      {
        if j' < j {
          assert nested.offsets[j' + 1] <= nested.offsets[j];
        } else if j' > j {
          assert nested.offsets[j + 1] <= nested.offsets[j'];
        }
      }
      forall j' | 0 <= j' < j + 1 && nested.offsets[j'] < nested.offsets[j' + 1]
        ensures r'[nested.offsets[j' + 1] - 1] == nested.offsets[j']
      {
        if j' < j {
          assert nested.offsets[j' + 1] <= nested.offsets[j];
        }
      }
    }
  }

  /** Following next k times from i. */
  function Iterate(next: seq<int>, i: int, k: nat): int
  {
    if k == 0 then i
    else
      var p := Iterate(next, i, k - 1);
      if 0 <= p < |next| then next[p] else p
  }

  /** Starting at its first position, a non-empty contour is walked in order and closes after its length. */
  lemma {:induction false} ContourIsCycle<T>(nested: Nested<T>, next: seq<int>, j: int, k: nat)
    requires nested.WellFormed() && IsContourNext(nested, next)
    requires 0 <= j < nested.Size() && nested.offsets[j] < nested.offsets[j + 1]
    requires k <= nested.SizeOf(j)
    ensures k < nested.SizeOf(j) ==> Iterate(next, nested.offsets[j], k) == nested.offsets[j] + k
    ensures k == nested.SizeOf(j) ==> Iterate(next, nested.offsets[j], k) == nested.offsets[j]
  {
    if k > 0 {
      ContourIsCycle(nested, next, j, k - 1);
    }
  }

  /** The links form a permutation of the flat positions. */
  lemma ContourNextIsPermutation<T>(nested: Nested<T>, next: seq<int>)
    requires nested.WellFormed() && IsContourNext(nested, next)
    ensures forall i :: 0 <= i < |next| ==> 0 <= next[i] < |next|
    ensures forall i, i' :: 0 <= i < i' < |next| ==> next[i] != next[i']
  {
    forall i | 0 <= i < |next|
      ensures 0 <= next[i] < |next|
    {
      var j := NextInContour(nested, next, i);
    }
    forall i, i' | 0 <= i < i' < |next|
      ensures next[i] != next[i']
    {
      NextInjective(nested, next, i, i');
    }
  }

  /** The link of a position stays inside the position's own contour. */
  lemma NextInContour<T>(nested: Nested<T>, next: seq<int>, i: int) returns (j: int)
    requires nested.WellFormed() && IsContourNext(nested, next) && 0 <= i < |next|
    ensures 0 <= j < nested.Size() && nested.offsets[j] <= i < nested.offsets[j + 1]
    ensures nested.offsets[j] <= next[i] < nested.offsets[j + 1]
    ensures next[i] == if i == nested.offsets[j + 1] - 1 then nested.offsets[j] else i + 1
  {
    j := RowOf(nested, i);
  }

  /** Two positions never link to the same position. */
  lemma NextInjective<T>(nested: Nested<T>, next: seq<int>, i: int, i': int)
    requires nested.WellFormed() && IsContourNext(nested, next) && 0 <= i < i' < |next|
    ensures next[i] != next[i']
  {
    var j := NextInContour(nested, next, i);
    var j' := NextInContour(nested, next, i');
    if j < j' {
      assert nested.offsets[j + 1] <= nested.offsets[j'];
    }
  }
}
