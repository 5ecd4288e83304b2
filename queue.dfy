/** Queue<T> of geode/structure/Queue.h: a FIFO queue in a circular array that grows when it fills. */
module Queue {

  /** Position of element i counted from front in a ring of n slots, as operator[] computes it. */
  function Slot(front: int, i: int, n: int): int
  {
    if front + i >= n then front + i - n else front + i
  }

  /**
   * The growth step of enqueue(): the full ring of n elements starting at front is copied,
   * oldest first, to the start of a new array of 4n/3 + 2 slots.
   */
  method Grow<T(0)>(storage: array<T>, front: int, ghost contents: seq<T>) returns (newStorage: array<T>)
    requires 0 <= front < storage.Length && |contents| == storage.Length
    requires forall i :: 0 <= i < |contents| ==> storage[Slot(front, i, storage.Length)] == contents[i]
    ensures fresh(newStorage) && newStorage.Length == 4 * storage.Length / 3 + 2
    ensures forall k :: 0 <= k < |contents| ==> newStorage[k] == contents[k]
  {
    var n := storage.Length;
    newStorage := new T[4 * n / 3 + 2];
    var b := 0;
    var index := front;
    while index < n
      invariant front <= index <= n && b == index - front
      invariant forall k :: 0 <= k < b ==> newStorage[k] == contents[k]
    {
      assert Slot(front, b, n) == index;
      newStorage[b] := storage[index];
      b := b + 1;
      index := index + 1;
    }
    index := 0;
    while index < front
      invariant 0 <= index <= front && b == n - front + index
      invariant forall k :: 0 <= k < b ==> newStorage[k] == contents[k]
    {
      assert Slot(front, b, n) == index;
      newStorage[b] := storage[index];
      b := b + 1;
      index := index + 1;
    }
  }

  class Queue<T(0)> {
    /** The source's `array`: one slot always stays free, so front == back means empty. */
    var storage: array<T>
    var front: int
    var back: int
    /** The queued elements, oldest first. */
    ghost var Contents: seq<T>

    ghost predicate Valid()
      reads this, storage
    {
      && storage.Length >= 1
      && 0 <= front < storage.Length
      && 0 <= back < storage.Length
      && |Contents| < storage.Length
      && back == Slot(front, |Contents|, storage.Length)
      && forall i :: 0 <= i < |Contents| ==> storage[Slot(front, i, storage.Length)] == Contents[i]
    }

    /** Queue(size): an empty queue whose array has size + 1 slots. */
    constructor (size: int)
      requires size >= 0
      ensures Valid() && fresh(storage)
      ensures Contents == [] && storage.Length == size + 1
    {
      storage := new T[size + 1];
      front, back := 0, 0;
      Contents := [];
    }

    /** size(): the distance from front to back around the ring. */
    function Size(): (s: int)
      requires Valid()
      reads this, storage
      ensures s == |Contents|
      ensures 0 <= s <= storage.Length - 1
    {
      if back < front then back - front + storage.Length else back - front
    }

    /** empty(): front and back coincide. */
    predicate Empty()
      requires Valid()
      reads this, storage
      ensures Empty() <==> |Contents| == 0
    {
      back == front
    }

    /** full(): every slot but one is in use. */
    predicate Full()
      requires Valid()
      reads this, storage
      ensures Full() <==> |Contents| == storage.Length - 1
    {
      Size() == storage.Length - 1
    }

    /** peek(): the slot at front, which holds the oldest element when there is one. */
    function Peek(): (x: T)
      requires Valid()
      reads this, storage
      ensures |Contents| > 0 ==> x == Contents[0]
    {
      storage[front]
    }

    /** operator[](i): the i-th element counted from the front. */
    function Get(i: int): (x: T)
      requires Valid() && 0 <= i < Size()
      reads this, storage
      ensures x == Contents[i]
    {
      var index := if front + i >= storage.Length then front + i - storage.Length else front + i;
      storage[index]
    }

    /**
     * enqueue(element): the element joins the back. When that fills the ring, the elements
     * move in FIFO order to the start of a new array of 4n/3 + 2 slots.
     */
    method Enqueue(x: T)
      requires Valid()
      modifies this, storage
      ensures Valid()
      ensures Contents == old(Contents) + [x]
      ensures |old(Contents)| + 1 < old(storage.Length) ==> storage == old(storage) && front == old(front)
      ensures |old(Contents)| + 1 == old(storage.Length) ==>
        fresh(storage) && storage.Length == 4 * old(storage.Length) / 3 + 2 && front == 0
      ensures |old(Contents)| + 1 == old(storage.Length) ==>
        forall i :: 0 <= i < |Contents| ==> storage[i] == Contents[i]
    {
      storage[back] := x;
      back := back + 1;
      if back >= storage.Length {
        back := 0;
      }
      Contents := Contents + [x];
      if back == front {
        var n := storage.Length;
        // The write filled the last free slot: the ring holds n elements starting at front.
        assert |Contents| == n;
        var newStorage := Grow(storage, front, Contents);
        front, back := 0, n;
        storage := newStorage;
      }
    }

    /** dequeue(): the queue must be non-empty; the oldest element leaves and is returned. */
    method Dequeue() returns (x: T)
      requires Valid() && |Contents| > 0
      modifies this
      ensures Valid() && storage == old(storage)
      ensures x == old(Contents)[0] && Contents == old(Contents)[1..]
    {
      var index := front;
      front := front + 1;
      if front >= storage.Length {
        front := 0;
      }
      x := storage[index];
      Contents := Contents[1..];
    }

    /** clear(): empties the queue without touching the array. */
    method Clear()
      requires Valid()
      modifies this
      ensures Valid() && Contents == [] && storage == old(storage)
    {
      front, back := 0, 0;
      Contents := [];
    }
  }
}
