/** The size-class pools: why a buffer taken from a class is always large enough, although it is
    resliced without a check. */
module Pools {
  import opened Wrappers

  const CLASSES := 32
  const MAX_SIZE := 65536           // the largest slice that is pooled
  const MAX_ITEM_SIZE := 2097152    // the largest buffer that is pooled, 1 << 21

  function Pow2(k: nat): (p: nat)
    ensures p > 0
  {
    if k == 0 then 1 else 2 * Pow2(k - 1)
  }

  /** bits.Len32: the number of bits of n. */
  function Len(n: nat): nat {
    if n == 0 then 0 else 1 + Len(n / 2)
  }

  lemma {:induction false} LenIs(n: nat)
    ensures n < Pow2(Len(n))
    ensures n > 0 ==> Len(n) > 0 && Pow2(Len(n) - 1) <= n
  {
    if n > 0 {
      LenIs(n / 2);
    }
  }

  lemma {:induction false} Pow2Monotone(i: nat, j: nat)
    requires i <= j
    ensures Pow2(i) <= Pow2(j)
    decreases j
  {
    if i < j {
      Pow2Monotone(i, j - 1);
    }
  }

  /** index and indexBS: the class that a request of n bytes is served from. */
  function Index(n: nat): nat
    requires n > 0
  {
    Len(n - 1)
  }

  /** Rounding up: the class of a request is the least one whose size holds it. */
  lemma IndexIsLeast(n: nat, k: nat)
    requires n > 0
    ensures n <= Pow2(Index(n))
    ensures n <= Pow2(k) ==> Index(n) <= k
  {
    LenIs(n - 1);
    if k < Index(n) {
      Pow2Monotone(k, Index(n) - 1);
    }
  }

  /** The class a buffer of that capacity is returned to: rounding down. */
  function Returned(capacity: nat): int
    requires capacity > 0
  {
    if capacity != Pow2(Index(capacity)) then Index(capacity) - 1 else Index(capacity)
  }

  /** A returned buffer is at least as large as its class, and the class is the greatest such. */
  lemma ReturnedFits(capacity: nat, k: nat)
    requires capacity > 0
    ensures Returned(capacity) >= 0 && Pow2(Returned(capacity)) <= capacity
    ensures Pow2(k) <= capacity ==> k <= Returned(capacity)
  {
    LenIs(capacity - 1);
    IndexIsLeast(capacity, k);
    if k > Returned(capacity) {
      Pow2Monotone(Index(capacity), k);
    }
  }

  lemma ClassInRange(n: nat)
    requires 0 < n <= MAX_ITEM_SIZE
    ensures Index(n) <= 21 && Returned(n) <= 21
  {
    Pow2Values();
    IndexIsLeast(n, 21);
  }

  /** Where Put puts a capacity that is pooled. */
  method ClassOf(capacity: nat) returns (idx: nat)
    requires 0 < capacity <= MAX_ITEM_SIZE
    ensures idx == Returned(capacity) < CLASSES && Pow2(idx) <= capacity
  {
    ClassInRange(capacity);
    ReturnedFits(capacity, 0);
    idx := Index(capacity);
    if capacity != Pow2(idx) {
      idx := idx - 1;
    }
  }

  /** The pool of byte slices: each class keeps the capacities of the arrays put into it. */
  class SlicePool {
    const pools: array<multiset<nat>>

    constructor ()
      ensures Valid() && fresh(pools) && forall k :: 0 <= k < CLASSES ==> pools[k] == multiset{}
    {
      pools := new multiset<nat>[CLASSES](_ => multiset{});
    }

    ghost predicate Valid()
      reads this, pools
    {
      && pools.Length == CLASSES
      && forall k, c :: 0 <= k < CLASSES && c in pools[k] ==> Pow2(k) <= c
    }

    /** The slice has the requested length. A pooled array, when the runtime's pool offers one, is
        taken out of the request's class and resliced to that class's size without a check, and is at
        least that large; otherwise the pool is unchanged and the array is new. */
    method Get(size: int, offered: bool) returns (len: nat, capacity: nat, hit: bool, ghost array_: nat)
      requires Valid()
      modifies pools
      ensures Valid()
      ensures hit <==> offered && 0 < size <= MAX_SIZE && Index(size) < CLASSES && old(pools[Index(size)]) != multiset{}
      ensures len == (if size <= 0 then 0 else size) && len <= capacity <= array_
      ensures hit ==>
        && 0 < size <= MAX_SIZE && capacity == Pow2(Index(size))
        && Index(size) < CLASSES && array_ in old(pools[Index(size)])
        && pools[..] == old(pools[..])[Index(size) := old(pools[Index(size)]) - multiset{array_}]
      ensures !hit ==>
        && pools[..] == old(pools[..])
        && array_ == capacity == if 0 < size <= MAX_SIZE then Pow2(Index(size)) else len
    {
      if size <= 0 {
        return 0, 0, false, 0;
      }
      if size > MAX_SIZE {
        return size, size, false, size;
      }
      var idx := Index(size);
      ClassInRange(size);
      IndexIsLeast(size, idx);
      if !offered || pools[idx] == multiset{} {
        return size, Pow2(idx), false, Pow2(idx);
      }
      var c :| c in pools[idx];
      pools[idx] := pools[idx] - multiset{c};
      return size, Pow2(idx), true, c;
    }

    /** Adds to the class the capacity rounds down to, unless it is not pooled at that size or the
        class is `full`. */
    method Put(capacity: nat, full: bool)
      requires Valid()
      modifies pools
      ensures Valid()
      ensures pools[..] ==
        if 0 < capacity <= MAX_SIZE && !full && 0 <= Returned(capacity) < CLASSES
        then old(pools[..])[Returned(capacity) := old(pools[Returned(capacity)]) + multiset{capacity}]
        else old(pools[..])
      ensures 0 < capacity <= MAX_SIZE ==> 0 <= Returned(capacity) < CLASSES
    {
      if capacity < 1 || capacity > MAX_SIZE {
        return;
      }
      var idx := ClassOf(capacity);
      if full {
        return;
      }
      pools[idx] := pools[idx] + multiset{capacity};
    }
  }

  class ByteBuffer {
    var capacity: nat
    var released: bool

    constructor (capacity: nat)
      ensures this.capacity == capacity && !released
    {
      this.capacity, released := capacity, false;
    }
  }

  /** The pool of buffers with a release flag. */
  class BufferPool {
    const pools: array<multiset<ByteBuffer>>
    ghost var pooled: set<ByteBuffer>
    ghost var home: map<ByteBuffer, nat>  // the class each pooled buffer is in

    constructor ()
      ensures Valid() && pooled == {} && fresh(pools)
    {
      pools := new multiset<ByteBuffer>[CLASSES](_ => multiset{});
      pooled, home := {}, map[];
    }

    /** A pooled buffer is in one class, once; it is released, and as large as its class says. */
    ghost predicate Kept(k: nat, b: ByteBuffer)
      requires pools.Length == CLASSES
      reads this, pools, pooled
    {
      && k < CLASSES && pools[k][b] == 1
      && b in pooled && b in home && home[b] == k
      && b.released && Pow2(k) <= b.capacity
    }

    /** A buffer that counts as pooled is in the class it went to. */
    ghost predicate Placed(b: ByteBuffer)
      requires pools.Length == CLASSES
      reads this, pools
    {
      b in home && home[b] < CLASSES && b in pools[home[b]]
    }

    ghost predicate Valid()
      reads this, pools, pooled
    {
      && pools.Length == CLASSES
      && (forall k: nat, b {:trigger Kept(k, b)} :: k < CLASSES && b in pools[k] ==> Kept(k, b))
      && (forall b {:trigger Placed(b)} :: b in pooled ==> Placed(b))
    }

    /** The buffer is large enough, is no longer pooled, and is not marked released, so it is handed
        to one holder at a time. It is a pooled one of the request's class when there is one and the
        runtime's pool offers it, and new otherwise. */
    method GetWithCap(capacity: int, offered: bool) returns (b: ByteBuffer)
      requires Valid()
      modifies this, pools, pooled
      ensures Valid() && b !in pooled && !b.released
      ensures b.capacity >= capacity
      ensures pooled == old(pooled) - {b} && home == old(home) && (b in old(pooled) || fresh(b))
      ensures if offered && 0 < capacity <= MAX_ITEM_SIZE && Index(capacity) < CLASSES
                 && old(pools[Index(capacity)]) != multiset{}
              then b in old(pools[Index(capacity)]) else fresh(b) && b.capacity == if capacity <= 0 then 0 else capacity
    {
      if capacity <= 0 {
        b := new ByteBuffer(0);
        AllKept();
        return;
      }
      if capacity > MAX_ITEM_SIZE {
        b := new ByteBuffer(capacity);
        AllKept();
        return;
      }
      var idx := Index(capacity);
      ClassInRange(capacity);
      IndexIsLeast(capacity, idx);
      if !offered || pools[idx] == multiset{} {
        b := new ByteBuffer(capacity);
        AllKept();
        return;
      }
      b :| b in pools[idx];
      assert Kept(idx, b);
      Take(idx, b);
    }

    method Take(idx: nat, b: ByteBuffer)
      requires Valid() && idx < CLASSES && b in pools[idx] && Kept(idx, b)
      modifies this, pools, b`released
      ensures Valid() && b !in pooled && !b.released && pooled == old(pooled) - {b} && home == old(home)
    {
      pools[idx] := pools[idx] - multiset{b};
      pooled := pooled - {b};
      b.released := false;
      forall k: nat, x | k < CLASSES && x in pools[k] ensures Kept(k, x) {
        assert old(Kept(k, x));
      }
      forall x | x in pooled ensures Placed(x) {
        assert old(Placed(x));
      }
    }

    /** Allocating a buffer changes nothing in the pool. */
    twostate lemma AllKept()
      requires old(Valid()) && unchanged(this) && unchanged(pools) && unchanged(pooled)
      ensures Valid()
    {
      forall k: nat, x | k < CLASSES && x in pools[k] ensures Kept(k, x) {
        assert old(Kept(k, x));
      }
      forall x | x in pooled ensures Placed(x) {
        assert old(Placed(x));
      }
    }

    /** Only a buffer that is not yet released can enter the pool, so a second Put has no effect; it
        enters the class its capacity rounds down to. */
    method Put(b: ByteBuffer, full: bool)
      requires Valid()
      modifies this, pools, b`released
      ensures Valid() && b.released
      ensures var keeps := !old(b.released) && !full && 1 <= b.capacity <= MAX_ITEM_SIZE;
        && pooled == (if keeps then old(pooled) + {b} else old(pooled))
        && home == if keeps then old(home)[b := Returned(b.capacity)] else old(home)
    {
      if b.released {
        return;
      }
      b.released := true;
      forall k: nat, x | k < CLASSES && x in pools[k] ensures Kept(k, x) && x != b {
        assert old(Kept(k, x));
      }
      forall x | x in pooled ensures Placed(x) {
        assert old(Placed(x));
      }
      if full || b.capacity < 1 || b.capacity > MAX_ITEM_SIZE {
        return;
      }
      var idx := ClassOf(b.capacity);
      Add(idx, b);
    }

    method Add(idx: nat, b: ByteBuffer)
      requires Valid() && idx < CLASSES && b.released && Pow2(idx) <= b.capacity
      requires forall k: nat :: k < CLASSES ==> b !in pools[k]
      modifies this, pools
      ensures Valid() && pooled == old(pooled) + {b} && home == old(home)[b := idx]
    {
      pools[idx] := pools[idx] + multiset{b};
      pooled := pooled + {b};
      home := home[b := idx];
      forall k: nat, x | k < CLASSES && x in pools[k] ensures Kept(k, x) {
        assert x != b ==> old(Kept(k, x));
      }
      forall x | x in pooled ensures Placed(x) {
        assert x != b ==> old(Placed(x));
      }
    }
  }

  // ---------------------------------------------------------------- exact powers of two

  /** binaryCeil, step by step on 32-bit words: the least power of two that is at least v. Beyond
      2^31, and for 0, the sum wraps to 0. */
  method BinaryCeil(v0: bv32) returns (v: bv32)
    ensures 1 <= v0 <= 0x8000_0000 ==> IsPower(v) && v0 <= v
    ensures 1 <= v0 <= 0x8000_0000 ==> forall p: bv32 :: IsPower(p) && v0 <= p ==> v <= p
    ensures v0 == 0 || v0 > 0x8000_0000 ==> v == 0
  {
    v := v0 - 1;
    v := v | (v >> 1);
    v := v | (v >> 2);
    v := v | (v >> 4);
    v := v | (v >> 8);
    v := v | (v >> 16);
    v := v + 1;
    if 1 <= v0 <= 0x8000_0000 {
      forall p: bv32 | IsPower(p) && v0 <= p ensures v <= p {
        SmearIsLeast(v0, p);
      }
    }
  }

  predicate IsPower(p: bv32) {
    p != 0 && p & (p - 1) == 0
  }

  function Smear(v0: bv32): bv32 {
    var v1 := v0 | (v0 >> 1);
    var v2 := v1 | (v1 >> 2);
    var v4 := v2 | (v2 >> 4);
    var v8 := v4 | (v4 >> 8);
    v8 | (v8 >> 16)
  }

  lemma SmearIsLeast(v: bv32, p: bv32)
    requires 1 <= v <= 0x8000_0000 && IsPower(p) && v <= p
    ensures Smear(v - 1) + 1 <= p
  {
  }

  /** What binaryCeil yields, on numbers. */
  function Ceil(n: nat): nat {
    if n == 0 || n > 0x8000_0000 then 0 else Pow2(Index(n))
  }

  /** It is the least power of two that is at least n, where there is one within 32 bits. */
  lemma CeilIsLeast(n: nat)
    ensures 0 < n <= 0x8000_0000 <==> Ceil(n) != 0
    ensures 0 < n <= 0x8000_0000 ==> n <= Ceil(n) && IsPow2(Ceil(n))
    ensures forall k: nat :: 0 < n <= 0x8000_0000 && n <= Pow2(k) ==> Ceil(n) <= Pow2(k)
  {
    CeilFits(n);
    if 0 < n <= 0x8000_0000 {
      forall k: nat | n <= Pow2(k) ensures Ceil(n) <= Pow2(k) {
        IndexIsLeast(n, k);
        Pow2Monotone(Index(n), k);
      }
    }
  }

  ghost predicate IsPow2(s: nat) {
    exists k: nat :: s == Pow2(k)
  }

  /** A power of two with exponent from lo to below hi. */
  ghost predicate IsSize(s: nat, lo: nat, hi: nat) {
    exists j: nat :: lo <= j < hi && s == Pow2(j)
  }

  lemma SizeIsPower(s: nat, lo: nat, k: nat, end: nat)
    requires lo <= k && s <= end < Pow2(k)
    ensures IsSize(s, lo, k) <==> IsPow2(s) && Pow2(lo) <= s
  {
    if IsSize(s, lo, k) {
      var j: nat :| lo <= j < k && s == Pow2(j);
      Pow2Monotone(lo, j);
    }
    if IsPow2(s) && Pow2(lo) <= s {
      var j: nat :| s == Pow2(j);
      if j < lo {
        Pow2Monotone(j + 1, lo);
      }
      if j >= k {
        Pow2Monotone(k, j);
      }
    }
  }

  /** The constructor's loop doubles i from binaryCeil(left) while i <= end. It comes to an end
      exactly for 0 < left <= 2^31: for any other left it starts at 0 and stays there. */
  lemma LoopEnds(left: nat, end: nat)
    ensures (exists k: nat :: Ceil(left) * Pow2(k) > end) <==> 0 < left <= 0x8000_0000
  {
    if 0 < left <= 0x8000_0000 {
      LenIs(end);
      var k := Len(end);
      assert Pow2(Index(left)) * Pow2(k) >= Pow2(k) by {
        MulAtLeast(Pow2(Index(left)), Pow2(k));
      }
      assert Ceil(left) * Pow2(k) > end;
    } else {
      assert forall k: nat :: Ceil(left) * Pow2(k) == 0;
    }
  }

  lemma MulAtLeast(a: nat, b: nat)
    requires a >= 1
    ensures a * b >= b
  {
  }

  lemma CeilFits(n: nat)
    ensures n <= 0x8000_0000 ==> Ceil(n) >= n
    ensures Ceil(n) <= 0x8000_0000
  {
    if 0 < n <= 0x8000_0000 {
      IndexIsLeast(n, 31);
      Pow2Values();
      Pow2Monotone(Index(n), 31);
    }
  }

  /** The pool keyed by exact powers of two between begin and end. */
  class PowerPool {
    const begin: nat
    const end: nat
    var shards: map<nat, multiset<nat>>   // per size, the capacities of the pooled buffers

    constructor (left: nat, right: nat)
      requires 0 < left <= 0x8000_0000 && right < 0x1_0000_0000
      ensures Valid()
      ensures forall s: nat :: s in shards <==> Ceil(left) <= s <= Ceil(right) && IsPow2(s)
      ensures begin == Ceil(left) && end == Ceil(right)
    {
      begin, end := Ceil(left), Ceil(right);
      new;
      shards := map[];
      var i := begin;
      ghost var k: nat := Index(left);
      while i <= end
        invariant k >= Index(left) && i == Pow2(k) > 0
        invariant forall s :: s in shards ==> shards[s] == multiset{}
        invariant forall s: nat :: s in shards <==> s <= end && IsSize(s, Index(left), k)
        decreases end - i
      {
        shards := shards[i := multiset{}];
        i := i * 2;
        k := k + 1;
      }
      forall s: nat ensures s in shards <==> s <= end && IsPow2(s) && begin <= s {
        if s <= end {
          SizeIsPower(s, Index(left), k, end);
        }
      }
    }

    /** A pooled buffer has exactly the size it is pooled under. */
    ghost predicate Valid()
      reads this
    {
      forall s, c :: s in shards && c in shards[s] ==> c == s
    }

    /** The buffer comes from the shard of the wanted size, which loses it when it has one and the
        runtime's pool offers it. The capacity is at least n for every n up to 2^31; beyond, the
        32-bit size has wrapped and only a pool without that shard keeps the promise. A negative n is
        answered from the shard its conversion to 32 bits asks for; without that shard making a buffer
        panics (None). */
    method GetWithCap(n: int, offered: bool) returns (capacity: Option<nat>)
      requires Valid()
      modifies this
      ensures Valid() && shards.Keys == old(shards.Keys)
      ensures capacity.None? <==> n < 0 && Wanted(n) !in shards
      ensures Wanted(n) in shards ==> capacity == Some(Wanted(n)) && Wanted(n) >= begin
      ensures Wanted(n) !in shards && n >= 0 ==> capacity == Some(n)
      ensures shards == if offered && Wanted(n) in old(shards) && old(shards)[Wanted(n)] != multiset{}
                        then old(shards)[Wanted(n) := old(shards)[Wanted(n)] - multiset{Wanted(n)}]
                        else old(shards)
      ensures 0 <= n <= 0x8000_0000 ==> capacity.Some? && capacity.value >= n
      ensures n > 0x8000_0000 && begin <= 0x8000_0000 ==>
        (capacity.value >= n <==> Wanted(n) !in shards)
    {
      var size := Wanted(n);
      WantedFits(n);
      if size in shards {
        var cap := size;
        if offered && shards[size] != multiset{} {
          cap :| cap in shards[size];
          shards := shards[size := shards[size] - multiset{cap}];
        }
        if cap < size {
          cap := Grow(cap, size);
        }
        return Some(cap);
      }
      return if n < 0 then None else Some(n);
    }

    /** The conversion to uint32 wraps. */
    function Wanted(n: int): nat {
      var c := Ceil(n % 0x1_0000_0000);
      if c > begin then c else begin
    }

    lemma WantedFits(n: int)
      ensures 0 <= n <= 0x8000_0000 ==> Wanted(n) >= n
      ensures begin <= 0x8000_0000 ==> Wanted(n) <= 0x8000_0000
    {
      CeilFits(n % 0x1_0000_0000);
    }

    method Put(capacity: nat)
      requires Valid()
      modifies this
      ensures Valid() && shards.Keys == old(shards.Keys)
      ensures forall s :: s in shards ==>
        shards[s] == if s == capacity then old(shards)[s] + multiset{capacity} else old(shards)[s]
    {
      if capacity in shards {
        shards := shards[capacity := shards[capacity] + multiset{capacity}];
      }
    }
  }

  function Grow(capacity: nat, n: nat): nat {
    if capacity > 0 && capacity * 2 >= n then capacity * 2 else n
  }

  lemma Pow2Values()
    ensures Pow2(21) == MAX_ITEM_SIZE && Pow2(31) == 0x8000_0000
  {
    assert Pow2(3) == 8;
    assert Pow2(6) == 8 * Pow2(3);
    assert Pow2(9) == 8 * Pow2(6);
    assert Pow2(12) == 8 * Pow2(9);
    assert Pow2(15) == 8 * Pow2(12);
    assert Pow2(18) == 8 * Pow2(15);
    assert Pow2(21) == 8 * Pow2(18);
    assert Pow2(24) == 8 * Pow2(21);
    assert Pow2(27) == 8 * Pow2(24);
    assert Pow2(30) == 8 * Pow2(27);
  }
}
