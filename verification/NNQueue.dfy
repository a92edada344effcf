/** The FIFO over linked nodes: a sentinel, a chain of live nodes and a bounded free list. */
module NNQueue {
  import opened Wrappers
  import opened Fifo

  class Node {
    var next: Node?
    var data: Item
    ghost var pos: int                // 0: sentinel; positive: live, in order; negative: cached

    constructor ()
      ensures next == null && data == None && pos == 0
    {
      next, data, pos := null, None, 0;
    }
  }

  ghost function At(ns: seq<Node>, i: nat): Node? {
    if i < |ns| then ns[i] else null
  }

  /** Following next from `first` visits exactly ns and ends; positions count up from `base`. */
  ghost predicate Chain(first: Node?, ns: seq<Node>, base: int)
    reads ns
  {
    && first == At(ns, 0)
    && (forall i {:trigger ns[i].next} :: 0 <= i < |ns| ==> ns[i].next == At(ns, i + 1))
    && (forall i {:trigger ns[i].pos} :: 0 <= i < |ns| ==> ns[i].pos == base + i)
  }

  /** A chain without its first node. */
  lemma ChainTail(first: Node?, ns: seq<Node>, base: int)
    requires Chain(first, ns, base) && ns != []
    ensures first == ns[0] && Chain(ns[0].next, ns[1..], base + 1) && ns[0] !in ns[1..]
    ensures forall k :: k in ns[1..] ==> k in ns
  {
    var rest := ns[1..];
    assert At(ns, 1) == At(rest, 0);
    forall i | 0 <= i < |rest| ensures rest[i].next == At(rest, i + 1) && rest[i].pos == base + 1 + i {
      assert rest[i] == ns[i + 1] && At(rest, i + 1) == At(ns, i + 2);
    }
  }

  /** A chain with one node more in front. */
  lemma ChainCons(n: Node, ns: seq<Node>, base: int)
    requires Chain(n.next, ns, base) && n.pos == base - 1
    ensures Chain(n, [n] + ns, base - 1)
  {
    var all := [n] + ns;
    forall i | 0 <= i < |all| ensures all[i].next == At(all, i + 1) && all[i].pos == base - 1 + i {
      if i > 0 {
        assert all[i] == ns[i - 1] && At(all, i + 1) == At(ns, i);
      }
    }
  }

  /** A chain whose last link was just set to a new last node. */
  twostate lemma ChainSnoc(ns: seq<Node>, new n: Node, new base: int)
    requires forall i :: 0 <= i < |ns| ==> old(ns[i].next) == At(ns, i + 1) && ns[i].pos == base + i
    requires forall i :: 0 <= i < |ns| - 1 ==> ns[i].next == old(ns[i].next)
    requires ns != [] ==> ns[|ns| - 1].next == n
    requires n.next == null && n.pos == base + |ns|
    ensures Chain(if ns == [] then n else ns[0], ns + [n], base)
  {
    var all := ns + [n];
    forall i | 0 <= i < |all| ensures all[i].next == At(all, i + 1) && all[i].pos == base + i {
      if i < |ns| {
        assert all[i] == ns[i];
        assert i < |ns| - 1 ==> old(ns[i].next) == At(ns, i + 1) == At(all, i + 1);
      }
    }
  }

  /** One more place of the receiver holds what came out of the queue. */
  lemma OneMore<T>(all: seq<T>, was: seq<T>, k: nat)
    requires k < |all| && k < |was|
    ensures (all[..k] + was[k..])[k := all[k]] == all[..k + 1] + was[k + 1..]
    ensures all[k..] == [all[k]] + all[k + 1..]
  {
  }

  class NNQueue {
    var head: Node
    var tail: Node
    var free: Node?
    var count: nat
    const maxCount: nat
    const isStrict: bool
    var freeCount: nat
    const freeMax: nat
    ghost var nodes: seq<Node>        // the live nodes, first to last
    ghost var base: nat               // the position of the first of them
    ghost var cached: seq<Node>       // the free list, top first
    ghost var items: seq<Item>        // what the live nodes hold

    constructor (size: int, isStrict: bool)
      ensures Valid() && items == [] && this.isStrict == isStrict && fresh(Repr())
      ensures maxCount == if size <= 0 then DEFAULT_SIZE else size
    {
      var n := if size <= 0 then DEFAULT_SIZE else size;
      var sentinel := new Node();
      this.head, this.tail, this.free := sentinel, sentinel, null;
      this.count, this.maxCount, this.isStrict := 0, n, isStrict;
      this.freeCount, this.freeMax := 0, if n < 64 then 64 else if n > 256 then 256 else n;
      this.nodes, this.base, this.cached, this.items := [], 1, [], [];
    }

    /** Everything but the sentinel's link: `first` starts the live chain. */
    ghost predicate Core(first: Node?)
      reads this, head, nodes, cached
    {
      && head.pos == 0 && base > 0
      && Chain(first, nodes, base)
      && Chain(free, cached, -|cached|)
      && count == |nodes| == |items| && freeCount == |cached| <= freeMax
      && (forall i :: 0 <= i < |nodes| ==> nodes[i].data == items[i])
      && (nodes != [] ==> tail == nodes[|nodes| - 1])
    }

    ghost predicate Valid()
      reads this, head, nodes, cached
    {
      Core(head.next) && (nodes == [] ==> tail == head)
    }

    ghost function Repr(): set<Node>
      reads this
    {
      {head} + (set n | n in nodes) + (set n | n in cached)
    }

    /** A node that is neither the sentinel, nor live, nor cached. */
    ghost predicate Detached(n: Node)
      reads this
    {
      n != head && n !in nodes && n !in cached
    }

    /** No live node is the sentinel or a cached one. */
    lemma Apart(first: Node?)
      requires Core(first)
      ensures head.pos == 0
      ensures forall k :: k in nodes ==> k.pos > 0
      ensures forall k :: k in cached ==> k.pos < 0
    {
    }

    method AcquireNode() returns (n: Node)
      requires Valid()
      modifies `free, `freeCount, `cached, cached
      ensures Valid() && Detached(n) && n.next == null
      ensures fresh(n) || n in old(cached)
      ensures forall k :: k in cached ==> k in old(cached)
    {
      if free != null {
        n := free;
        Apart(head.next);
        ChainTail(free, cached, -|cached|);
        free := n.next;
        freeCount := freeCount - 1;
        cached := cached[1..];
        n.next := null;
        return;
      }
      n := new Node();
    }

    method Push(data: Item) returns (ok: bool)
      requires Valid()
      modifies this, Repr()
      ensures Valid() && head == old(head)
      ensures ok == !(isStrict && |old(items)| >= maxCount)
      ensures items == if ok then old(items) + [data] else old(items)
      ensures forall n :: n in Repr() ==> n in old(Repr()) || fresh(n)
    {
      if isStrict && count >= maxCount {
        return false;
      }
      var node := AcquireNode();
      Append(node, data);
      return true;
    }

    method Append(node: Node, data: Item)
      requires Valid() && Detached(node)
      modifies `tail, `count, `nodes, `items, tail`next, node
      ensures Valid() && items == old(items) + [data] && nodes == old(nodes) + [node]
    {
      Link(node, data);
      nodes, items := nodes + [node], items + [data];
    }

    /** The statements of Push, before the ghost state follows. */
    method Link(node: Node, data: Item)
      requires Valid() && Detached(node)
      modifies `tail, `count, tail`next, node
      ensures tail == node && count == old(count) + 1 && head.pos == 0
      ensures Chain(head.next, nodes + [node], base)
      ensures Chain(free, cached, -|cached|)
      ensures node.data == data && forall i :: 0 <= i < |nodes| ==> nodes[i].data == items[i]
    {
      assert tail.pos >= 0 && (nodes != [] ==> tail in nodes);
      node.data := data;
      node.next := null;
      node.pos := base + |nodes|;
      tail.next := node;
      tail := node;
      count := count + 1;
      ChainSnoc(nodes, node, base);
    }

    /** Returns a detached node to the free list, or drops it when the list is full. */
    method RecycleNode(node: Node, ghost first: Node?)
      requires Core(first) && Detached(node)
      modifies `free, `freeCount, `cached, node
      ensures Core(first)
      ensures forall k :: k in cached ==> k in old(cached) || k == node
    {
      node.data := None;
      if freeCount < freeMax {
        Cache(node, first);
        return;
      }
      node.next := null;
    }

    /** Puts a detached node on top of the free list. */
    method Cache(node: Node, ghost first: Node?)
      requires Core(first) && Detached(node) && freeCount < freeMax
      modifies `free, `freeCount, `cached, node
      ensures Core(first) && cached == [node] + old(cached)
    {
      node.next := free;
      node.pos := -|cached| - 1;
      free := node;
      freeCount := freeCount + 1;
      ChainCons(node, cached, -|cached|);
      cached := [node] + cached;
    }

    method Pop() returns (bb: Item)
      requires Valid()
      modifies this, Repr()
      ensures Valid() && head == old(head) && Repr() <= old(Repr())
      ensures old(items) == [] ==> bb == None && items == []
      ensures old(items) != [] ==> bb == old(items)[0] && items == old(items)[1..]
    {
      var first := head.next;
      if first == null {
        return None;
      }
      assert first == nodes[0];
      bb := first.data;
      head.next := first.next;
      Detach(first, head.next);
      if head.next == null {
        tail := head;
      }
    }

    /** The first live node goes to the free list; `next` now starts the chain. */
    method Detach(node: Node, next: Node?)
      requires Core(node) && nodes != [] && next == node.next
      modifies `count, `nodes, `items, `base, `free, `freeCount, `cached, node
      ensures Core(next)
      ensures items == old(items)[1..] && nodes == old(nodes)[1..]
      ensures forall k :: k in cached ==> k in old(cached) || k == node
    {
      ChainTail(node, nodes, base);
      Apart(node);
      count := count - 1;
      nodes, items, base := nodes[1..], items[1..], base + 1;
      RecycleNode(node, next);
    }

    /** Detaches one node after the other and relinks the sentinel once at the end. */
    method PopMany(cnt: int, recv: array<Item>, limitBytes: int) returns (written: nat)
      requires Valid() && recv.Length > 0
      modifies this, Repr(), recv
      ensures Valid() && head == old(head) && Repr() <= old(Repr())
      ensures written == Taken(old(items), cnt, recv.Length, limitBytes) <= |old(items)|
      ensures written <= recv.Length
      ensures items == old(items)[written..]
      ensures recv[..] == old(items)[..written] + old(recv[written..])
    {
      if count == 0 {
        assert items == [] && recv[..] == [] + old(recv[0..]);
        return 0;
      }
      var n := cnt;
      if n < 1 {
        n := 1;
      }
      if n > recv.Length {
        n := recv.Length;
      }
      if n > count {
        n := count;
      }
      assert n == Clamp(cnt, recv.Length, |items|);
      var node;
      written, node := DetachMany(n, recv, limitBytes);
      Relink(node);
    }

    /** The sentinel's link to the first live node, when there is one. */
    method Relink(node: Node?)
      requires Core(node)
      modifies head`next, `tail
      ensures Valid()
    {
      Apart(node);
      head.next := node;
      if node == null {
        tail := head;
      }
    }

    method DetachMany(n: nat, recv: array<Item>, limitBytes: int) returns (written: nat, node: Node?)
      requires Valid() && 0 < n <= recv.Length && n <= |items|
      modifies `count, `nodes, `items, `base, `free, `freeCount, `cached, Repr() - {head}, recv
      ensures Core(node) && Repr() <= old(Repr())
      ensures written == More(old(items), 0, n, limitBytes, 0) <= n
      ensures items == old(items)[written..]
      ensures recv[..] == old(items)[..written] + old(recv[written..])
    {
      ghost var all, was := items, recv[..];
      written, node := 0, head.next;
      var totalBytes: nat := 0;
      var stop := false;
      ghost var goal := More(all, 0, n, limitBytes, 0);
      while written < n && node != null && !stop
        invariant Core(node) && Repr() <= old(Repr())
        invariant written <= n && items == all[written..]
        invariant OnTrack(all, n, limitBytes, goal, written, totalBytes, stop)
        invariant recv[..] == all[..written] + was[written..]
        decreases n - written, !stop
      {
        ghost var t, w := totalBytes, written;
        var willPop := NextItem(node);
        assert willPop == all[w];
        if limitBytes > 0 && written > 0 && willPop.Some? && totalBytes + willPop.value.len > limitBytes {
          stop := true;
        } else {
          node := DetachInto(node, recv, all, was, written);
          written := written + 1;
          if willPop.Some? {
            totalBytes := totalBytes + willPop.value.len;
            stop := limitBytes > 0 && totalBytes >= limitBytes;
          }
        }
        assert Turned(all[w], limitBytes, w, t, written, totalBytes, stop);
        Track(all, n, limitBytes, goal, w, t, written, totalBytes, stop);
      }
    }

    method NextItem(node: Node) returns (b: Item)
      requires Core(node)
      ensures items != [] && b == items[0]
    {
      assert node == nodes[0];
      return node.data;
    }

    /** One more item into the receiver. */
    method DetachInto(node: Node, recv: array<Item>, ghost all: seq<Item>, ghost was: seq<Item>, written: nat)
      returns (next: Node?)
      requires Core(node) && written < |all| && items == all[written..]
      requires written < |was| && recv[..] == all[..written] + was[written..]
      modifies `count, `nodes, `items, `base, `free, `freeCount, `cached, node, recv
      ensures Core(next) && items == all[written + 1..] && Repr() <= old(Repr())
      ensures recv[..] == all[..written + 1] + was[written + 1..]
    {
      next := node.next;
      assert nodes != [] && nodes[0] == node && node.data == items[0];
      OneMore(all, was, written);
      recv[written] := node.data;
      Detach(node, next);
    }
  }
}
