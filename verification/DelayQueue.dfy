/** The delay queue's min-heap: a slice of items that know their own index, grown and shrunk by
    hand, with Go's container/heap sift loops over it. */
module DelayQueue {

  class Item<T> {
    const value: T
    const priority: int
    var index: int

    constructor (value: T, priority: int)
      ensures this.value == value && this.priority == priority
    {
      this.value, this.priority, this.index := value, priority, 0;
    }
  }

  function Parent(k: int): int
    requires k > 0
  {
    (k - 1) / 2
  }

  ghost predicate OrderedPrefix<T>(h: seq<Item<T>>, n: int)
    requires n <= |h|
  {
    forall k :: 0 < k < n ==> h[Parent(k)].priority <= h[k].priority
  }

  ghost predicate Ordered<T>(h: seq<Item<T>>) {
    OrderedPrefix(h, |h|)
  }

  /** Ordered but for slot j, which may be smaller than its parent. */
  ghost predicate OrderedButUp<T>(h: seq<Item<T>>, j: int) {
    && (forall k :: 0 < k < |h| && k != j ==> h[Parent(k)].priority <= h[k].priority)
    && (forall k :: 0 < k < |h| && Parent(k) == j && 0 < j < |h| ==> h[Parent(j)].priority <= h[k].priority)
  }

  /** The first n slots are ordered but for slot i, which may be larger than its children. */
  ghost predicate OrderedButDown<T>(h: seq<Item<T>>, i: int, n: int)
    requires n <= |h|
  {
    && (forall k :: 0 < k < n && Parent(k) != i ==> h[Parent(k)].priority <= h[k].priority)
    && (forall k :: 0 < k < n && Parent(k) == i && 0 < i < n ==> h[Parent(i)].priority <= h[k].priority)
  }

  function Swapped<T>(h: seq<T>, i: int, j: int): (r: seq<T>)
    requires 0 <= i < |h| && 0 <= j < |h|
    ensures |r| == |h|
    ensures multiset(r) == multiset(h)
  {
    SwapKeepsMultiset(h, i, j);
    h[i := h[j]][j := h[i]]
  }

  lemma SwapKeepsMultiset<T>(h: seq<T>, i: int, j: int)
    requires 0 <= i < |h| && 0 <= j < |h|
    ensures multiset(h[i := h[j]][j := h[i]]) == multiset(h)
  {
  }

  /** The root of an ordered heap is a least element. */
  lemma {:induction false} RootIsLeast<T>(h: seq<Item<T>>, k: int)
    requires Ordered(h) && 0 <= k < |h|
    ensures h[0].priority <= h[k].priority
    decreases k
  {
    if k > 0 {
      RootIsLeast(h, Parent(k));
    }
  }

  class PriorityQueue<T> {
    var pq: array<Item?<T>>
    var len: nat
    ghost var heap: seq<Item<T>>
    ghost var repr: set<Item<T>>

    /** The representation: the slice is the heap, and every item knows where it is. */
    ghost predicate Shape()
      reads this, pq, repr
    {
      && pq.Length >= 1
      && len == |heap| <= pq.Length
      && (forall i :: 0 <= i < len ==> heap[i] in repr)
      && (forall i :: 0 <= i < len ==> pq[i] == heap[i])
      && (forall i :: 0 <= i < len ==> heap[i].index == i)
    }

    ghost predicate Valid()
      reads this, pq, repr
    {
      Shape() && Ordered(heap)
    }

    constructor (capacity: nat)
      requires capacity >= 1
      ensures Valid() && heap == [] && repr == {} && fresh(pq)
    {
      pq := new Item?<T>[capacity](_ => null);
      len := 0;
      heap, repr := [], {};
    }

    method Swap(i: int, j: int)
      requires Shape() && 0 <= i < len && 0 <= j < len
      modifies pq, repr, `heap
      ensures Shape() && heap == Swapped(old(heap), i, j)
    {
      pq[i], pq[j] := pq[j], pq[i];
      heap := Swapped(heap, i, j);
      pq[i].index := i;
      pq[j].index := j;
    }

    method Up(start: int)
      requires Shape() && 0 <= start < len && OrderedButUp(heap, start)
      modifies pq, repr, `heap
      ensures Valid() && multiset(heap) == old(multiset(heap)) && |heap| == old(|heap|)
    {
      var j := start;
      while j > 0 && pq[j].priority < pq[Parent(j)].priority
        invariant Shape() && 0 <= j < len && OrderedButUp(heap, j)
        invariant multiset(heap) == old(multiset(heap)) && |heap| == old(|heap|)
      {
        ghost var h := heap;
        var i := Parent(j);
        Swap(i, j);
        UpStep(h, heap, j);
        j := i;
      }
    }

    /** Sifts slot `start` down inside the first n slots. */
    method Down(start: int, n: int)
      requires Shape() && 0 <= start < n <= len && OrderedButDown(heap, start, n)
      modifies pq, repr, `heap
      ensures Shape() && multiset(heap) == old(multiset(heap)) && |heap| == old(|heap|)
      ensures OrderedPrefix(heap, n) && forall k :: n <= k < len ==> heap[k] == old(heap)[k]
    {
      var i := start;
      var sinking := true;
      while sinking && 2 * i + 1 < n
        invariant Shape() && 0 <= i < n && n <= len && len == old(len)
        invariant multiset(heap) == old(multiset(heap))
        invariant forall k :: n <= k < len ==> heap[k] == old(heap)[k]
        invariant if sinking then OrderedButDown(heap, i, n) else OrderedPrefix(heap, n)
        decreases sinking, n - i
      {
        i, sinking := SinkOnce(i, n);
      }
    }

    /** One turn of the sift-down loop: swap slot i with its smaller child, or stop. */
    method SinkOnce(i: int, n: int) returns (j: int, moved: bool)
      requires Shape() && 0 <= i && 2 * i + 1 < n <= len && OrderedButDown(heap, i, n)
      modifies pq, repr, `heap
      ensures Shape() && len == old(len) && multiset(heap) == old(multiset(heap))
      ensures forall k :: n <= k < len ==> heap[k] == old(heap)[k]
      ensures i <= j < n && (moved ==> i < j && OrderedButDown(heap, j, n))
      ensures !moved ==> OrderedPrefix(heap, n)
    {
      j := SmallerChild(i, n);
      moved := pq[j].priority < pq[i].priority;
      if moved {
        ghost var h := heap;
        Swap(i, j);
        DownStep(h, heap, i, j, n);
      }
    }

    method SmallerChild(i: int, n: int) returns (j: int)
      requires Shape() && 0 <= i && 2 * i + 1 < n <= len
      ensures i < j < n && Parent(j) == i
      ensures forall k :: 0 < k < n && Parent(k) == i ==> heap[j].priority <= heap[k].priority
    {
      j := 2 * i + 1;
      if j + 1 < n && pq[j + 1].priority < pq[j].priority {
        j := j + 1;
      }
    }

    /** priorityQueue.Push: appends, doubling the slice by hand when it is full. */
    method Push(x: Item<T>)
      requires Shape() && x !in repr
      modifies this, pq, x
      ensures Shape() && heap == old(heap) + [x] && repr == old(repr) + {x}
      ensures pq == old(pq) || fresh(pq)
      ensures pq.Length == if old(len) + 1 > old(pq.Length) then 2 * old(pq.Length) else old(pq.Length)
    {
      var n := len;
      if n + 1 > pq.Length {
        Resize(pq.Length * 2);
      }
      x.index := n;
      pq[n] := x;
      len := n + 1;
      heap, repr := heap + [x], repr + {x};
    }

    method Resize(capacity: nat)
      requires Shape() && len <= capacity && 1 <= capacity
      modifies `pq
      ensures Shape() && fresh(pq) && pq.Length == capacity
    {
      var npq := new Item?<T>[capacity](_ => null);
      for i := 0 to len
        invariant forall k :: 0 <= k < i ==> npq[k] == heap[k]
        invariant pq == old(pq) && Shape()
      {
        npq[i] := pq[i];
      }
      pq := npq;
    }

    /** priorityQueue.Pop: takes the last slot, halving a large slice that is less than half full. */
    method Pop() returns (x: Item<T>)
      requires Shape() && len > 0
      modifies this, pq, repr
      ensures Shape() && heap == old(heap)[..old(len) - 1] && repr == old(repr) - {x}
      ensures x == old(heap)[old(len) - 1] && x.index == -1
      ensures pq == old(pq) || fresh(pq)
      ensures pq.Length == if old(len) < old(pq.Length) / 2 && old(pq.Length) > 25
                           then old(pq.Length) / 2 else old(pq.Length)
    {
      var n := len;
      if n < pq.Length / 2 && pq.Length > 25 {
        Resize(pq.Length / 2);
      }
      x := pq[n - 1];
      assert x == heap[n - 1];
      assert forall i :: 0 <= i < n - 1 ==> heap[i].index == i && heap[i] != x;
      x.index := -1;
      len := n - 1;
      heap, repr := heap[..n - 1], repr - {x};
    }

    /** heap.Push: the new item's index tells Offer whether it became the earliest. */
    method Insert(x: Item<T>)
      requires Valid() && x !in repr
      modifies this, pq, repr, x
      ensures Valid() && multiset(heap) == old(multiset(heap)) + multiset{x} && repr == old(repr) + {x}
      ensures pq == old(pq) || fresh(pq)
      ensures 0 <= x.index < len && heap[x.index] == x
      ensures x.index == 0 ==> forall y :: y in old(heap) ==> x.priority <= y.priority
      ensures (forall y :: y in old(heap) ==> x.priority < y.priority) ==> x.index == 0
    {
      Push(x);
      Up(len - 1);
      assert x in multiset(heap);
      ghost var i :| 0 <= i < len && heap[i] == x;
      InsertedRoot(old(heap), heap, x);
    }

    /** Takes a least item when it is due at `max`; else says how long until the least one is, or
        0 when there is none. */
    method PeekAndShift(max: int) returns (x: Item?<T>, delta: int)
      requires Valid()
      modifies this, pq, repr
      ensures Valid() && repr <= old(repr) && (pq == old(pq) || fresh(pq))
      ensures x == null ==> heap == old(heap)
      ensures x == null && heap == [] ==> delta == 0
      ensures x == null && heap != [] ==> delta > 0 && forall y :: y in heap ==> max + delta <= y.priority
      ensures x == null && heap != [] ==> exists y :: y in heap && y.priority == max + delta
      ensures x != null ==> x in old(heap) && x.priority <= max && x.index == -1 && x !in repr
      ensures x != null ==> forall y :: y in old(heap) ==> x.priority <= y.priority
      ensures x != null ==> multiset(heap) == old(multiset(heap)) - multiset{x}
    {
      if len == 0 {
        return null, 0;
      }
      x := pq[0];
      forall y | y in heap
        ensures x.priority <= y.priority
      {
        var k :| 0 <= k < |heap| && heap[k] == y;
        RootIsLeast(heap, k);
      }
      if x.priority > max {
        delta := x.priority - max;
        assert x in heap;
        return null, delta;
      }
      RemoveRoot();
      delta := 0;
    }

    /** heap.Remove(pq, 0). */
    method RemoveRoot()
      requires Valid() && len > 0
      modifies this, pq, repr
      ensures Valid() && repr == old(repr) - {old(heap[0])} && (pq == old(pq) || fresh(pq))
      ensures old(heap[0]).index == -1
      ensures multiset(heap) == old(multiset(heap)) - multiset{old(heap[0])}
    {
      var n := len - 1;
      if n != 0 {
        Swap(0, n);
        Down(0, n);
      }
      assert heap == heap[..n] + [heap[n]];
      var x := Pop();
    }
  }

  /** An item is at the root of the new heap only if nothing was earlier, and surely if it is
      strictly earlier than everything else. */
  lemma InsertedRoot<T>(before: seq<Item<T>>, h: seq<Item<T>>, x: Item<T>)
    requires Ordered(h) && multiset(h) == multiset(before) + multiset{x} && h != []
    ensures h[0] == x ==> forall y :: y in before ==> x.priority <= y.priority
    ensures (forall y :: y in before ==> x.priority < y.priority) ==> h[0] == x
  {
    forall y | y in multiset(h)
      ensures h[0].priority <= y.priority
    {
      var k :| 0 <= k < |h| && h[k] == y;
      RootIsLeast(h, k);
    }
    assert forall y :: y in before ==> y in multiset(h);
    assert x in multiset(h);
    assert h[0] in multiset(h);
  }

  lemma UpStep<T>(h: seq<Item<T>>, h': seq<Item<T>>, j: int)
    requires 0 < j < |h| && OrderedButUp(h, j)
    requires h[j].priority < h[Parent(j)].priority
    requires h' == Swapped(h, Parent(j), j)
    ensures OrderedButUp(h', Parent(j))
  {
    var i := Parent(j);
    forall k | 0 < k < |h'| && k != i
      ensures h'[Parent(k)].priority <= h'[k].priority
    {
    }
  }

  lemma DownStep<T>(h: seq<Item<T>>, h': seq<Item<T>>, i: int, j: int, n: int)
    requires 0 <= i < j < n <= |h| && Parent(j) == i && OrderedButDown(h, i, n)
    requires forall k :: 0 < k < n && Parent(k) == i ==> h[j].priority <= h[k].priority
    requires h[j].priority < h[i].priority
    requires h' == Swapped(h, i, j)
    ensures OrderedButDown(h', j, n)
  {
    forall k | 0 < k < n && Parent(k) != j
      ensures h'[Parent(k)].priority <= h'[k].priority
    {
    }
  }
}
