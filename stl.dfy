/** The container helpers of utility/stl.h. */
module Stl {

  /** contains(v, x) on a vector: a linear scan for an equal element. */
  method Contains<T(==)>(v: seq<T>, x: T) returns (found: bool)
    ensures found <==> x in v
  {
    var i := 0;
    while i < |v|
      invariant 0 <= i <= |v|
      invariant x !in v[..i]
    {
      if v[i] == x {
        return true;
      }
      i := i + 1;
    }
    assert v[..i] == v;
    return false;
  }

  /** std::map::count: a map holds each key at most once. */
  function MapCount<K, V>(m: map<K, V>, k: K): (c: nat)
    ensures c <= 1
    ensures c == 1 <==> k in m
  {
    if k in m then 1 else 0
  }

  /** std::set::count: a set holds each element at most once. */
  function SetCount<K>(s: set<K>, k: K): (c: nat)
    ensures c <= 1
    ensures c == 1 <==> k in s
  {
    if k in s then 1 else 0
  }

  /** contains(m, idx) on a map is key membership. */
  predicate ContainsKey<K, V>(m: map<K, V>, k: K)
    ensures ContainsKey(m, k) <==> k in m.Keys
  {
    MapCount(m, k) != 0
  }

  /** contains(s, v) on a set is membership. */
  predicate ContainsElement<K>(s: set<K>, k: K)
    ensures ContainsElement(s, k) <==> k in s
  {
    SetCount(s, k) != 0
  }

  /** The vector after remove_lazy(v, i): the last element overwrites slot i and is popped. */
  function RemovedLazy<T>(s: seq<T>, i: nat): seq<T>
    requires i < |s|
  {
    s[i := s[|s| - 1]][..|s| - 1]
  }

  /** remove_lazy shrinks by one, moves the old last element to i, keeps every other slot, and removes one copy of s[i]. */
  lemma {:induction false} RemovedLazyProperties<T>(s: seq<T>, i: nat)
    requires i < |s|
    ensures |RemovedLazy(s, i)| == |s| - 1
    ensures i < |s| - 1 ==> RemovedLazy(s, i)[i] == s[|s| - 1]
    ensures forall j :: 0 <= j < |s| - 1 && j != i ==> RemovedLazy(s, i)[j] == s[j]
    ensures multiset(RemovedLazy(s, i)) == multiset(s) - multiset{s[i]}
  {
    RemovedLazyCount(s, i);
  }

  /** remove_lazy removes exactly one copy of s[i]. */
  lemma RemovedLazyCount<T>(s: seq<T>, i: nat)
    requires i < |s|
    ensures multiset(RemovedLazy(s, i)) == multiset(s) - multiset{s[i]}
  {
    var n := |s| - 1;
    var r := RemovedLazy(s, i);
    assert s == s[..n] + [s[n]];
    if i == n {
      assert r == s[..n];
    } else {
      // s[..n] and r differ only at i, where s[..n] has s[i] and r has s[n].
      var a, b := s[..i], s[i + 1..n];
      assert s[..n] == a + [s[i]] + b;
      assert r == a + [s[n]] + b;
      var ma, mb := multiset(a), multiset(b);
      assert multiset(r) == ma + multiset{s[n]} + mb;
      assert multiset(s) == ma + multiset{s[i]} + mb + multiset{s[n]};
      MultisetSwap(ma, mb, s[i], s[n]);
    }
  }

  lemma MultisetSwap<T>(a: multiset<T>, b: multiset<T>, x: T, y: T)
    ensures a + multiset{y} + b == (a + multiset{x} + b + multiset{y}) - multiset{x}
  {
  }

  /** The index std::find stops at: the first occurrence of k, or |s| when k is absent. */
  function FindFirst<T(==)>(s: seq<T>, k: T): (i: nat)
    ensures i <= |s|
    ensures i < |s| ==> s[i] == k
    ensures forall j :: 0 <= j < i ==> s[j] != k
    ensures i == |s| <==> k !in s
  {
    if |s| == 0 then 0
    else if s[0] == k then 0
    else 1 + FindFirst(s[1..], k)
  }

  /** Any index at which k occurs with no earlier occurrence, or |s| when k is absent, is FindFirst. */
  lemma FindFirstIsFirst<T>(s: seq<T>, k: T, i: nat)
    requires i <= |s|
    requires i < |s| ==> s[i] == k
    requires forall j :: 0 <= j < i ==> s[j] != k
    ensures FindFirst(s, k) == i
  {
  }

  /** The vector after remove_first_lazy(v, k). */
  function RemovedFirstLazy<T(==)>(s: seq<T>, k: T): seq<T>
  {
    var i := FindFirst(s, k);
    if i < |s| then RemovedLazy(s, i) else s
  }

  /** remove_first_lazy leaves v alone when k is absent, and otherwise removes exactly one k. */
  lemma RemovedFirstLazyProperties<T>(s: seq<T>, k: T)
    ensures k !in s ==> RemovedFirstLazy(s, k) == s
    ensures k in s ==> multiset(RemovedFirstLazy(s, k)) == multiset(s) - multiset{k}
    ensures k in s ==> |RemovedFirstLazy(s, k)| == |s| - 1
  {
    var i := FindFirst(s, k);
    if i < |s| {
      RemovedLazyProperties(s, i);
    }
  }

  /** A std::vector<T> that the in-place helpers modify. */
  class Vector<T(==)> {
    var elems: seq<T>

    constructor (xs: seq<T>)
      ensures elems == xs
    {
      elems := xs;
    }

    /** remove_lazy(v, i). */
    method RemoveLazy(i: nat)
      requires i < |elems|
      modifies this
      ensures elems == RemovedLazy(old(elems), i)
      ensures multiset(elems) == multiset(old(elems)) - multiset{old(elems)[i]}
    {
      RemovedLazyProperties(elems, i);
      elems := elems[i := elems[|elems| - 1]];
      elems := elems[..|elems| - 1];
    }

    /** remove_first_lazy(v, k): std::find, then remove_lazy at the found position. */
    method RemoveFirstLazy(k: T)
      modifies this
      ensures elems == RemovedFirstLazy(old(elems), k)
    {
      var i := 0;
      while i < |elems| && elems[i] != k
        invariant 0 <= i <= |elems|
        invariant forall j :: 0 <= j < i ==> elems[j] != k
      {
        i := i + 1;
      }
      FindFirstIsFirst(elems, k, i);
      if i < |elems| {
        RemoveLazy(i);
      }
    }

    /** extend(v, src) on a vector or deque: src's elements are appended in order. */
    method Extend(src: seq<T>)
      modifies this
      ensures elems == old(elems) + src
      ensures |elems| == |old(elems)| + |src|
    {
      elems := elems + src;
    }
  }

  /** make_vector(args...): a vector holding the arguments in the order they were passed,
      built by one push_back per argument. */
  method MakeVector<T>(args: seq<T>) returns (v: seq<T>)
    ensures |v| == |args|
    ensures forall i :: 0 <= i < |args| ==> v[i] == args[i]
  {
    v := [];
    var k := 0;
    while k < |args|
      invariant 0 <= k <= |args|
      invariant v == args[..k]
    {
      v := v + [args[k]];
      k := k + 1;
    }
  }

  /** extend(dst, src) on a set: insert each element of src. */
  function ExtendSet<K(!new)>(dst: set<K>, src: seq<K>): (r: set<K>)
    ensures forall k :: k in r <==> k in dst || k in src
    decreases |src|
  {
    if |src| == 0 then dst else ExtendSet(dst + {src[0]}, src[1..])
  }

  /** The first position in src whose key is k, or |src|. */
  function FirstKey<K(==), V>(src: seq<(K, V)>, k: K): (i: nat)
    ensures i <= |src|
    ensures i < |src| ==> src[i].0 == k
    ensures forall j :: 0 <= j < i ==> src[j].0 != k
  {
    if |src| == 0 then 0
    else if src[0].0 == k then 0
    else 1 + FirstKey(src[1..], k)
  }

  /**
   * extend(dst, src) on a map: std::map::insert over a range adds a pair only when its key
   * is not present yet, so existing entries keep their values and among equal keys in src
   * the first one wins.
   */
  function ExtendMap<K(==,!new), V>(dst: map<K, V>, src: seq<(K, V)>): (r: map<K, V>)
    ensures forall k :: k in r <==> k in dst || FirstKey(src, k) < |src|
    ensures forall k :: k in dst ==> r[k] == dst[k]
    ensures forall k :: k !in dst && FirstKey(src, k) < |src| ==> r[k] == src[FirstKey(src, k)].1
    decreases |src|
  {
    if |src| == 0 then dst
    else
      var d := if src[0].0 in dst then dst else dst[src[0].0 := src[0].1];
      var r := ExtendMap(d, src[1..]);
      assert forall k :: k != src[0].0 ==> FirstKey(src, k) == 1 + FirstKey(src[1..], k);
      r
  }

  /** max(container): the container must be non-empty; std::max_element keeps the first largest. */
  method Max(c: seq<int>) returns (m: int)
    requires |c| > 0
    ensures m in c
    ensures forall x :: x in c ==> x <= m
  {
    m := c[0];
    var i := 1;
    while i < |c|
      invariant 1 <= i <= |c|
      invariant m in c[..i]
      invariant forall j :: 0 <= j < i ==> c[j] <= m
    {
      if m < c[i] {
        m := c[i];
      }
      i := i + 1;
    }
    assert c[..i] == c;
  }

  /** The elements written one after the other, with delim between neighbours. */
  function Joined(items: seq<string>, delim: string): string
  {
    if |items| == 0 then ""
    else if |items| == 1 then items[0]
    else Joined(items[..|items| - 1], delim) + delim + items[|items| - 1]
  }

  /** Joining two non-empty runs puts exactly one delimiter between them. */
  lemma {:induction false} JoinedAppend(a: seq<string>, b: seq<string>, delim: string)
    requires |a| > 0 && |b| > 0
    ensures Joined(a + b, delim) == Joined(a, delim) + delim + Joined(b, delim)
    decreases |b|
  {
    if |b| == 1 {
      assert (a + b)[..|a + b| - 1] == a;
    } else {
      var b' := b[..|b| - 1];
      assert (a + b)[..|a + b| - 1] == a + b';
      JoinedAppend(a, b', delim);
    }
  }

  /** The total length of the strings in items. */
  function TotalLength(items: seq<string>): nat
  {
    if |items| == 0 then 0 else TotalLength(items[..|items| - 1]) + |items[|items| - 1]|
  }

  /** n elements produce n - 1 delimiters. */
  lemma {:induction false} JoinedLength(items: seq<string>, delim: string)
    requires |items| > 0
    ensures |Joined(items, delim)| == TotalLength(items) + (|items| - 1) * |delim|
  {
    if |items| > 1 {
      var n := |items|;
      JoinedLength(items[..n - 1], delim);
      assert (n - 1) * |delim| == (n - 2) * |delim| + |delim|;
    }
  }

  /**
   * print(os, begin, end, cbegin, cend, cdelim): cbegin, the elements separated by cdelim,
   * then cend. Each element is given already formatted.
   */
  method Print(items: seq<string>, cbegin: char, cend: char, cdelim: string) returns (out: string)
    ensures out == [cbegin] + Joined(items, cdelim) + [cend]
  {
    out := [cbegin];
    var i := 0;
    while i < |items|
      invariant 0 <= i <= |items|
      invariant out == [cbegin] + Joined(items[..i], cdelim)
    {
      if i != 0 {
        out := out + cdelim;
      }
      out := out + items[i];
      assert items[..i + 1][..i] == items[..i];
      i := i + 1;
    }
    assert items[..i] == items;
    out := out + [cend];
  }
}
