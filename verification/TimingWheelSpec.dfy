/** The hierarchical timing wheel as a value: levels of buckets, one shared delay queue, and the
    bucket each pending timer points to. Bucket identity is (level, slot). */
module TimingWheelSpec {
  import opened Wrappers
  import opened Arithmetic

  datatype Timer = Timer(id: nat, expiration: int)
  datatype Bucket = Bucket(expiration: int, timers: seq<Timer>)
  datatype Level = Level(tick: int, clock: int, buckets: seq<Bucket>)
  datatype Loc = Loc(level: int, slot: int)
  datatype Item = Item(loc: Loc, priority: int)

  /** `home` is Timer.b: the bucket a pending timer is in; a timer whose b is nil has no entry. */
  datatype Wheel = Wheel(size: int, levels: seq<Level>, queue: multiset<Item>, home: map<nat, Loc>)

  /** The expiration of a bucket that is not armed. */
  const IDLE := -1

  ghost predicate ValidLoc(w: Wheel, l: Loc) {
    0 <= l.level < |w.levels| && 0 <= l.slot < |w.levels[l.level].buckets|
  }

  /** The bucket at l; a location no level has yet reads as an idle bucket. */
  function BucketAt(w: Wheel, l: Loc): Bucket {
    if 0 <= l.level < |w.levels| && 0 <= l.slot < |w.levels[l.level].buckets|
    then w.levels[l.level].buckets[l.slot]
    else Bucket(IDLE, [])
  }

  function WithBucket(w: Wheel, l: Loc, b: Bucket): Wheel
    requires ValidLoc(w, l)
  {
    var lv := w.levels[l.level];
    w.(levels := w.levels[l.level := lv.(buckets := lv.buckets[l.slot := b])])
  }

  // ---------------------------------------------------------------- operations

  function IdleBuckets(n: int): (bs: seq<Bucket>)
    requires n >= 0
  {
    seq(n, i => Bucket(IDLE, []))
  }

  /** newTimingWheel: a level whose clock is the start time truncated to its tick. */
  function NewLevel(tick: int, size: int, start: int): Level
    requires tick > 0 && size >= 0
  {
    Level(tick, Truncate(start, tick), IdleBuckets(size))
  }

  /** Bucket l takes timer t and expiration e, and is enqueued when that changed its expiration. */
  function Placed(w: Wheel, l: Loc, e: int, t: Timer): Wheel
    requires ValidLoc(w, l)
  {
    var b := BucketAt(w, l);
    WithBucket(w, l, Bucket(e, b.timers + [t])).(
      queue := if b.expiration != e then w.queue + multiset{Item(l, e)} else w.queue,
      home := w.home[t.id := l])
  }

  /** Puts t into its bucket of level k, and enqueues the bucket when its expiration changed. */
  function Insert(w: Wheel, k: int, t: Timer): Wheel
    requires 0 <= k < |w.levels| && w.levels[k].tick > 0 && w.size > 0
    requires |w.levels[k].buckets| == w.size
  {
    var lv := w.levels[k];
    Placed(w, SlotOf(w, k, t), t.expiration / lv.tick * lv.tick, t)
  }

  function SlotOf(w: Wheel, k: int, t: Timer): Loc
    requires 0 <= k < |w.levels| && w.levels[k].tick > 0 && w.size > 0
  {
    Loc(k, t.expiration / w.levels[k].tick % w.size)
  }

  /** add: false means "already expired", and then nothing changed. */
  function Add(w: Wheel, k: int, t: Timer): (Wheel, bool)
    requires Shape(w) && 0 <= k < |w.levels|
    decreases t.expiration - w.levels[k].tick
  {
    var lv := w.levels[k];
    if t.expiration < lv.clock + lv.tick then (w, false)
    else if t.expiration < lv.clock + lv.tick * w.size then (Insert(w, k, t), true)
    else
      var w' := if k + 1 == |w.levels| then Overflow(w) else w;
      OverflowShape(w);
      MulMonotone(2, w.size, lv.tick);
      assert Linked(w', k + 1);
      Add(w', k + 1, t)
  }

  /** Creates the next coarser level. */
  function Overflow(w: Wheel): Wheel
    requires Shape(w)
  {
    var top := w.levels[|w.levels| - 1];
    MulMonotone(2, w.size, top.tick);
    w.(levels := w.levels + [NewLevel(top.tick * w.size, w.size, top.clock)])
  }

  /** advanceClock at level k, and from there up while a level's clock moves. */
  function Advance(w: Wheel, k: int, e: int): Wheel
    requires 0 <= k <= |w.levels|
    requires forall j :: 0 <= j < |w.levels| ==> w.levels[j].tick > 0
    decreases |w.levels| - k
  {
    if k == |w.levels| || e < w.levels[k].clock + w.levels[k].tick then w
    else
      var c := Truncate(e, w.levels[k].tick);
      Advance(w.(levels := w.levels[k := w.levels[k].(clock := c)]), k + 1, c)
  }

  function RemoveId(ts: seq<Timer>, id: nat): seq<Timer> {
    if ts == [] then []
    else if ts[0].id == id then ts[1..]
    else [ts[0]] + RemoveId(ts[1..], id)
  }

  /** bucket.remove: takes the timer out of bucket l and clears its b pointer. */
  function Detach(w: Wheel, l: Loc, id: nat): Wheel
    requires ValidLoc(w, l)
  {
    var b := BucketAt(w, l);
    WithBucket(w, l, b.(timers := RemoveId(b.timers, id))).(home := w.home - {id})
  }

  // ---------------------------------------------------------------- invariant

  ghost predicate LevelShape(lv: Level, size: int) {
    lv.tick > 0 && lv.clock >= 0 && lv.clock % lv.tick == 0 && |lv.buckets| == size
  }

  /** The clock of level k is the next finer clock truncated to the coarser tick. */
  ghost predicate Linked(w: Wheel, k: int) {
    && 0 < k < |w.levels|
    && var lv, next := w.levels[k - 1], w.levels[k];
      next.tick > 0 && next.tick == lv.tick * w.size && next.clock == Truncate(lv.clock, next.tick)
  }

  ghost predicate Shape(w: Wheel) {
    && w.size >= 2
    && |w.levels| >= 1
    && (forall k :: 0 <= k < |w.levels| ==> LevelShape(w.levels[k], w.size))
    && (forall k {:trigger Linked(w, k)} :: 0 < k < |w.levels| ==> Linked(w, k))
  }

  ghost predicate BucketOk(lv: Level, size: int, slot: int, b: Bucket)
    requires lv.tick > 0 && size > 0
  {
    if b.expiration == IDLE then b.timers == []
    else
      && b.expiration % lv.tick == 0
      && lv.clock <= b.expiration <= lv.clock + lv.tick * size - lv.tick
      && b.expiration / lv.tick % size == slot
      && forall j :: 0 <= j < |b.timers| ==>
           b.expiration <= b.timers[j].expiration < b.expiration + lv.tick
  }

  ghost predicate BucketsOk(w: Wheel)
    requires Shape(w)
  {
    forall l :: ValidLoc(w, l) ==> BucketOk(w.levels[l.level], w.size, l.slot, BucketAt(w, l))
  }

  /** No armed bucket is behind the finest clock. */
  ghost predicate Ahead(w: Wheel)
    requires Shape(w)
  {
    forall l :: BucketAt(w, l).expiration != IDLE ==> w.levels[0].clock <= BucketAt(w, l).expiration
  }

  ghost predicate Armed(w: Wheel, it: Item) {
    it.priority != IDLE && BucketAt(w, it.loc).expiration == it.priority
  }

  /** Every armed bucket is queued exactly once, under its own expiration; nothing else is queued.
      `hole` is the bucket being flushed, which has just been taken from the queue. */
  ghost predicate QueueOk(w: Wheel, hole: Option<Loc>) {
    forall it :: w.queue[it] == if Armed(w, it) && hole != Some(it.loc) then 1 else 0
  }

  /** Each timer is in exactly the bucket it points to, once. */
  ghost predicate HomeOk(w: Wheel) {
    && (forall id :: id in w.home ==> Holds(BucketAt(w, w.home[id]).timers, id))
    && (forall l :: PointHere(w.home, l, BucketAt(w, l).timers))
  }

  ghost predicate PointHere(home: map<nat, Loc>, l: Loc, ts: seq<Timer>) {
    && (forall j :: 0 <= j < |ts| ==> ts[j].id in home && home[ts[j].id] == l)
    && NoDuplicates(ts)
  }

  ghost predicate Holds(ts: seq<Timer>, id: nat) {
    exists j :: 0 <= j < |ts| && ts[j].id == id
  }

  ghost predicate NoDuplicates(ts: seq<Timer>) {
    forall i, j :: 0 <= i < j < |ts| ==> ts[i].id != ts[j].id
  }

  ghost predicate Inv(w: Wheel, hole: Option<Loc>) {
    Shape(w) && BucketsOk(w) && Ahead(w) && QueueOk(w, hole) && HomeOk(w)
  }

  // ---------------------------------------------------------------- levels

  lemma NewLevelShape(tick: int, size: int, start: int)
    requires tick > 0 && size >= 0 && start >= 0
    ensures LevelShape(NewLevel(tick, size, start), size)
  {
    if Truncate(start, tick) < 0 {
      MultiplesApart(Truncate(start, tick), 0, tick);
      assert false;
    }
  }

  lemma OverflowShape(w: Wheel)
    requires Shape(w)
    ensures w.levels[|w.levels| - 1].tick * w.size > 0
    ensures Shape(Overflow(w))
  {
    var top := w.levels[|w.levels| - 1];
    MulMonotone(2, w.size, top.tick);
    NewLevelShape(top.tick * w.size, w.size, top.clock);
    var w' := Overflow(w);
    forall k | 0 < k < |w'.levels|
      ensures Linked(w', k)
    {
      if k < |w.levels| {
        assert Linked(w, k);
      }
    }
  }

  /** Out of level k's interval, a timer is added at the next level, which is created when missing. */
  lemma AddedAbove(w: Wheel, k: int, t: Timer)
    requires Shape(w) && 0 <= k < |w.levels|
    requires w.levels[k].clock + w.levels[k].tick * w.size <= t.expiration
    ensures var w' := if k + 1 == |w.levels| then Overflow(w) else w;
      && Shape(w') && k + 1 < |w'.levels|
      && w.levels[k].tick < w'.levels[k + 1].tick && w.levels[k].tick <= t.expiration
      && Add(w, k, t) == Add(w', k + 1, t)
  {
    OverflowShape(w);
    MulMonotone(2, w.size, w.levels[k].tick);
    assert Linked(if k + 1 == |w.levels| then Overflow(w) else w, k + 1);
  }

  /** The shape is a matter of ticks, clocks and numbers of buckets. */
  lemma ShapeKept(w: Wheel, w': Wheel)
    requires Shape(w) && w'.size == w.size && |w'.levels| == |w.levels|
    requires forall k :: 0 <= k < |w.levels| ==>
      && w'.levels[k].tick == w.levels[k].tick && w'.levels[k].clock == w.levels[k].clock
      && |w'.levels[k].buckets| == |w.levels[k].buckets|
    ensures Shape(w')
  {
    forall k | 0 <= k < |w.levels|
      ensures LevelShape(w'.levels[k], w'.size)
    {
      assert LevelShape(w.levels[k], w.size);
    }
    forall k | 0 < k < |w.levels|
      ensures Linked(w', k)
    {
      assert Linked(w, k);
    }
  }

  /** Clocks get coarser, ticks grow: level j never runs ahead of level i <= j. */
  lemma {:induction false} ClocksDescend(w: Wheel, i: int, j: int)
    requires Shape(w) && 0 <= i <= j < |w.levels|
    ensures w.levels[j].clock <= w.levels[i].clock
    ensures w.levels[i].tick <= w.levels[j].tick
    decreases j - i
  {
    if i < j {
      ClocksDescend(w, i, j - 1);
      MulMonotone(1, w.size, w.levels[j - 1].tick);
      assert Linked(w, j);
    }
  }

  /** A tick divides every coarser tick, so a multiple of tick j is a multiple of tick i <= j. */
  lemma {:induction false} CoarseIsFine(w: Wheel, i: int, j: int, x: int)
    requires Shape(w) && 0 <= i <= j < |w.levels|
    requires x % w.levels[j].tick == 0
    ensures x % w.levels[i].tick == 0
    decreases j - i
  {
    if i < j {
      assert Linked(w, j);
      MultipleOfProduct(x, w.levels[j - 1].tick, w.size);
      CoarseIsFine(w, i, j - 1, x);
    }
  }

  /** Each level's clock is the finest clock truncated to that level's tick. */
  lemma {:induction false} ClocksAgree(w: Wheel, j: int)
    requires Shape(w) && 0 <= j < |w.levels|
    ensures w.levels[j].clock == Truncate(w.levels[0].clock, w.levels[j].tick)
  {
    var lv := w.levels[j];
    assert LevelShape(lv, w.size);
    if j == 0 {
      TruncateUnique(lv.clock, lv.tick, lv.clock);
    } else {
      assert Linked(w, j);
      ClocksAgree(w, j - 1);
      TruncateTwice(w.levels[0].clock, w.levels[j - 1].tick, w.size);
    }
  }

  /** So a level whose tick divides the finest clock shows that clock. */
  lemma ClockStandsAt(w: Wheel, j: int)
    requires Shape(w) && 0 <= j < |w.levels|
    requires w.levels[0].clock % w.levels[j].tick == 0
    ensures w.levels[j].clock == w.levels[0].clock
  {
    ClocksAgree(w, j);
    assert LevelShape(w.levels[j], w.size);
    TruncateUnique(w.levels[0].clock, w.levels[j].tick, w.levels[0].clock);
  }

  lemma OverflowInv(w: Wheel, hole: Option<Loc>)
    requires Inv(w, hole)
    ensures Inv(Overflow(w), hole)
    ensures forall l :: BucketAt(Overflow(w), l) == BucketAt(w, l)
  {
    OverflowShape(w);
    var w' := Overflow(w);
    var n := |w.levels|;
    assert forall l :: BucketAt(w', l) == BucketAt(w, l);
    assert forall it :: Armed(w', it) <==> Armed(w, it);
  }

  // ---------------------------------------------------------------- insertion

  /** The slot's multiple lies in the level's window, and the timer in that multiple's tick. */
  lemma SlotFits(lv: Level, size: int, e: int)
    requires LevelShape(lv, size) && size > 0
    requires lv.clock + lv.tick <= e < lv.clock + lv.tick * size
    ensures var x := e / lv.tick * lv.tick;
      && x % lv.tick == 0 && x / lv.tick == e / lv.tick
      && lv.clock + lv.tick <= x <= lv.clock + lv.tick * size - lv.tick
      && x <= e < x + lv.tick
  {
    var x := e / lv.tick * lv.tick;
    ProductIsMultiple(e / lv.tick, lv.tick);
    assert e == x + e % lv.tick;
    assert (lv.clock + lv.tick) % lv.tick == 0 by {
      MultipleForm(lv.clock, lv.tick);
      assert lv.clock + lv.tick == (lv.clock / lv.tick + 1) * lv.tick;
      ProductIsMultiple(lv.clock / lv.tick + 1, lv.tick);
    }
    var top := lv.clock + lv.tick * size;
    assert top % lv.tick == 0 by {
      MultipleForm(lv.clock, lv.tick);
      assert top == (lv.clock / lv.tick + size) * lv.tick;
      ProductIsMultiple(lv.clock / lv.tick + size, lv.tick);
    }
    if x < lv.clock + lv.tick {
      MultiplesApart(x, lv.clock + lv.tick, lv.tick);
      assert false;
    }
    MultiplesApart(x, top, lv.tick);
  }

  /** The bucket a timer goes to is idle or already armed with the same expiration: the reuse
      rule that makes SetExpiration enqueue a bucket once per cycle. */
  lemma SlotIsIdleOrSame(w: Wheel, hole: Option<Loc>, k: int, t: Timer)
    requires Inv(w, hole) && 0 <= k < |w.levels|
    requires w.levels[k].clock + w.levels[k].tick <= t.expiration
          < w.levels[k].clock + w.levels[k].tick * w.size
    ensures ValidLoc(w, SlotOf(w, k, t))
    ensures var b := BucketAt(w, SlotOf(w, k, t));
      b.expiration == IDLE || b.expiration == t.expiration / w.levels[k].tick * w.levels[k].tick
  {
    var lv := w.levels[k];
    var l := SlotOf(w, k, t);
    var b := BucketAt(w, l);
    SlotFits(lv, w.size, t.expiration);
    assert BucketOk(lv, w.size, l.slot, b);
    if b.expiration != IDLE {
      SlotNamesMultiple(b.expiration, t.expiration / lv.tick * lv.tick, lv.clock, lv.tick, w.size);
    }
  }

  ghost predicate InsertedAt(w: Wheel, w': Wheel, l: Loc, t: Timer) {
    && ValidLoc(w', l)
    && w'.home == w.home[t.id := l]
    && w'.size == w.size
    && |w.levels| <= |w'.levels|
    && (forall k :: 0 <= k < |w.levels| ==>
          w'.levels[k].clock == w.levels[k].clock && w'.levels[k].tick == w.levels[k].tick)
    && (forall m :: m != l ==> BucketAt(w', m) == BucketAt(w, m))
    && BucketAt(w', l).timers == BucketAt(w, l).timers + [t]
  }

  lemma InsertInv(w: Wheel, hole: Option<Loc>, k: int, t: Timer)
    requires Inv(w, hole) && 0 <= k < |w.levels|
    requires t.id !in w.home
    requires w.levels[k].clock + w.levels[k].tick <= t.expiration
          < w.levels[k].clock + w.levels[k].tick * w.size
    requires hole != Some(SlotOf(w, k, t))
    ensures Inv(Insert(w, k, t), hole)
    ensures InsertedAt(w, Insert(w, k, t), SlotOf(w, k, t), t)
    ensures |Insert(w, k, t).levels| == |w.levels|
  {
    InsertFrame(w, hole, k, t);
    InsertAhead(w, k, t, hole);
    InsertBuckets(w, hole, k, t);
    InsertQueue(w, hole, k, t);
    InsertHome(w, hole, k, t);
  }

  lemma InsertFrame(w: Wheel, hole: Option<Loc>, k: int, t: Timer)
    requires Inv(w, hole) && 0 <= k < |w.levels|
    requires w.levels[k].clock + w.levels[k].tick <= t.expiration
          < w.levels[k].clock + w.levels[k].tick * w.size
    ensures Shape(Insert(w, k, t))
    ensures InsertedAt(w, Insert(w, k, t), SlotOf(w, k, t), t)
    ensures BucketAt(Insert(w, k, t), SlotOf(w, k, t)).expiration
         == t.expiration / w.levels[k].tick * w.levels[k].tick
    ensures forall l :: ValidLoc(Insert(w, k, t), l) <==> ValidLoc(w, l)
  {
    ShapeKept(w, Insert(w, k, t));
  }

  lemma InsertBuckets(w: Wheel, hole: Option<Loc>, k: int, t: Timer)
    requires Inv(w, hole) && 0 <= k < |w.levels|
    requires w.levels[k].clock + w.levels[k].tick <= t.expiration
          < w.levels[k].clock + w.levels[k].tick * w.size
    ensures Shape(Insert(w, k, t)) && BucketsOk(Insert(w, k, t))
  {
    var lv := w.levels[k];
    var l := SlotOf(w, k, t);
    var w' := Insert(w, k, t);
    InsertFrame(w, hole, k, t);
    SlotFits(lv, w.size, t.expiration);
    SlotIsIdleOrSame(w, hole, k, t);
    forall m | ValidLoc(w', m)
      ensures BucketOk(w'.levels[m.level], w.size, m.slot, BucketAt(w', m))
    {
      assert BucketOk(w.levels[m.level], w.size, m.slot, BucketAt(w, m));
    }
  }

  lemma InsertAhead(w: Wheel, k: int, t: Timer, hole: Option<Loc>)
    requires Inv(w, hole) && 0 <= k < |w.levels|
    requires w.levels[k].clock + w.levels[k].tick <= t.expiration
          < w.levels[k].clock + w.levels[k].tick * w.size
    ensures w.levels[0].clock <= t.expiration / w.levels[k].tick * w.levels[k].tick
  {
    // the coarse clock truncates every finer one, so a finer clock is less than a tick ahead
    SlotFits(w.levels[k], w.size, t.expiration);
    FineWithinTick(w, k);
  }

  lemma {:induction false} FineWithinTick(w: Wheel, k: int)
    requires Shape(w) && 0 <= k < |w.levels|
    ensures w.levels[0].clock < w.levels[k].clock + w.levels[k].tick
  {
    if k > 0 {
      assert Linked(w, k);
      FineWithinTick(w, k - 1);
      var c, f := w.levels[k].clock + w.levels[k].tick, w.levels[k - 1];
      assert f.clock < c;
      assert c % f.tick == 0 by {
        MultipleForm(w.levels[k].clock, w.levels[k].tick);
        assert c == (w.levels[k].clock / w.levels[k].tick + 1) * w.levels[k].tick;
        ProductIsMultiple(w.levels[k].clock / w.levels[k].tick + 1, w.levels[k].tick);
        MultipleOfProduct(c, f.tick, w.size);
      }
      MultiplesApart(f.clock, c, f.tick);
    }
  }

  lemma InsertQueue(w: Wheel, hole: Option<Loc>, k: int, t: Timer)
    requires Inv(w, hole) && 0 <= k < |w.levels|
    requires w.levels[k].clock + w.levels[k].tick <= t.expiration
          < w.levels[k].clock + w.levels[k].tick * w.size
    requires hole != Some(SlotOf(w, k, t))
    ensures QueueOk(Insert(w, k, t), hole)
  {
    var l := SlotOf(w, k, t);
    var e := t.expiration / w.levels[k].tick * w.levels[k].tick;
    var w' := Insert(w, k, t);
    SlotFits(w.levels[k], w.size, t.expiration);
    SlotIsIdleOrSame(w, hole, k, t);
    InsertFrame(w, hole, k, t);
    forall it
      ensures w'.queue[it] == if Armed(w', it) && hole != Some(it.loc) then 1 else 0
    {
      if it.loc == l {
        assert BucketAt(w', l).expiration == e;
        assert w.queue[it] == if Armed(w, it) && hole != Some(it.loc) then 1 else 0;
      } else {
        assert Armed(w', it) <==> Armed(w, it);
      }
    }
  }

  lemma InsertHome(w: Wheel, hole: Option<Loc>, k: int, t: Timer)
    requires Inv(w, hole) && 0 <= k < |w.levels|
    requires t.id !in w.home
    requires w.levels[k].clock + w.levels[k].tick <= t.expiration
          < w.levels[k].clock + w.levels[k].tick * w.size
    ensures HomeOk(Insert(w, k, t))
  {
    var l := SlotOf(w, k, t);
    var w' := Insert(w, k, t);
    InsertFrame(w, hole, k, t);
    AppendHome(w, w', l, t);
  }

  lemma AppendHome(w: Wheel, w': Wheel, l: Loc, t: Timer)
    requires HomeOk(w) && t.id !in w.home && InsertedAt(w, w', l, t)
    ensures HomeOk(w')
  {
    forall id | id in w'.home
      ensures Holds(BucketAt(w', w'.home[id]).timers, id)
    {
      AppendHeld(w, w', l, t, id);
    }
    forall m
      ensures PointHere(w'.home, m, BucketAt(w', m).timers)
    {
      assert PointHere(w.home, m, BucketAt(w, m).timers);
    }
  }

  lemma AppendHeld(w: Wheel, w': Wheel, l: Loc, t: Timer, id: nat)
    requires HomeOk(w) && t.id !in w.home && InsertedAt(w, w', l, t) && id in w'.home
    ensures Holds(BucketAt(w', w'.home[id]).timers, id)
  {
    var ts, ts' := BucketAt(w, l).timers, BucketAt(w', l).timers;
    if id == t.id {
      assert ts'[|ts|].id == id;
    } else {
      assert Holds(BucketAt(w, w.home[id]).timers, id);
      if w.home[id] == l {
        var j :| 0 <= j < |ts| && ts[j].id == id;
        assert ts'[j].id == id;
      }
    }
  }

  // ---------------------------------------------------------------- add

  /** What a flush of bucket h guarantees about a timer it re-adds. */
  ghost predicate Below(w: Wheel, h: Loc, t: Timer)
    requires Shape(w)
  {
    && ValidLoc(w, h)
    && BucketAt(w, h).expiration == w.levels[0].clock
    && t.expiration < w.levels[0].clock + w.levels[h.level].tick
  }

  lemma ClocksAgreeBelow(w: Wheel, hole: Option<Loc>, k: int)
    requires Inv(w, hole) && hole.Some? && ValidLoc(w, hole.value)
    requires BucketAt(w, hole.value).expiration == w.levels[0].clock
    requires 0 <= k <= hole.value.level
    ensures w.levels[k].clock == w.levels[0].clock
  {
    var h := hole.value;
    assert BucketOk(w.levels[h.level], w.size, h.slot, BucketAt(w, h));
    CoarseIsFine(w, k, h.level, w.levels[0].clock);
    ClockStandsAt(w, k);
  }

  /** A new level takes nothing away from the others. */
  lemma InsertedBeyond(w: Wheel, w1: Wheel, w2: Wheel, t: Timer)
    requires Shape(w) && (w1 == w || w1 == Overflow(w))
    requires forall l :: BucketAt(w1, l) == BucketAt(w, l)
    requires t.id in w2.home && InsertedAt(w1, w2, w2.home[t.id], t)
    ensures InsertedAt(w, w2, w2.home[t.id], t)
  {
    assert forall k :: 0 <= k < |w.levels| ==> w1.levels[k] == w.levels[k];
  }

  /** The main lemma of `add`. An overflow level never reports "expired"; the timer lands in one
      bucket with the invariant kept; and a timer coming out of a flushed bucket lands on a
      strictly lower level, so the flush never meets its own bucket again. */
  lemma {:induction false} AddInv(w: Wheel, hole: Option<Loc>, k: int, t: Timer)
    requires Inv(w, hole) && 0 <= k < |w.levels| && t.id !in w.home
    requires k > 0 ==> w.levels[k].clock + w.levels[k].tick <= t.expiration
    requires hole.Some? ==> Below(w, hole.value, t) && k <= hole.value.level
    ensures var (w', ok) := Add(w, k, t);
      && (ok <==> !(k == 0 && t.expiration < w.levels[0].clock + w.levels[0].tick))
      && (!ok ==> w' == w)
      && (ok ==> t.id in w'.home && InsertedAt(w, w', w'.home[t.id], t) && Inv(w', hole))
      && (ok && hole.Some? ==> w'.home[t.id].level < hole.value.level && |w'.levels| == |w.levels|)
    decreases t.expiration - w.levels[k].tick
  {
    var lv := w.levels[k];
    if hole.Some? {
      ClocksAgreeBelow(w, hole, k);
    }
    if t.expiration < lv.clock + lv.tick {
    } else if t.expiration < lv.clock + lv.tick * w.size {
      assert hole.Some? ==> k < hole.value.level;
      InsertInv(w, hole, k, t);
    } else {
      OverflowInv(w, hole);
      MulMonotone(2, w.size, lv.tick);
      var w' := if k + 1 == |w.levels| then Overflow(w) else w;
      assert Linked(w', k + 1);
      assert hole.Some? ==> w' == w && k + 1 <= hole.value.level;
      AddInv(w', hole, k + 1, t);
      InsertedBeyond(w, w', Add(w', k + 1, t).0, t);
    }
  }

  // ---------------------------------------------------------------- advance

  /** A chain of levels whose link into level k is broken: level k - 1 has just moved to e. */
  ghost predicate ShapeUpTo(w: Wheel, k: int, e: int) {
    && w.size >= 2
    && 0 <= k <= |w.levels|
    && |w.levels| >= 1
    && (forall j :: 0 <= j < |w.levels| ==> LevelShape(w.levels[j], w.size))
    && (forall j {:trigger Linked(w, j)} :: 0 < j < |w.levels| && j != k ==> Linked(w, j))
    && (k < |w.levels| ==> w.levels[k].clock <= e)
    && (0 < k < |w.levels| ==> w.levels[k].tick == w.levels[k - 1].tick * w.size && e == w.levels[k - 1].clock)
  }

  ghost predicate ClocksMoved(w: Wheel, w': Wheel, k: int) {
    && w' == w.(levels := w'.levels)
    && |w'.levels| == |w.levels|
    && (forall j :: 0 <= j < |w.levels| ==>
          w'.levels[j] == w.levels[j].(clock := w'.levels[j].clock) && w.levels[j].clock <= w'.levels[j].clock)
    && (forall j :: 0 <= j < k && j < |w.levels| ==> w'.levels[j] == w.levels[j])
  }

  lemma {:induction false} AdvanceShape(w: Wheel, k: int, e: int)
    requires ShapeUpTo(w, k, e)
    ensures Shape(Advance(w, k, e))
    ensures ClocksMoved(w, Advance(w, k, e), k)
    ensures k < |w.levels| ==> Advance(w, k, e).levels[k].clock == Truncate(e, w.levels[k].tick)
    decreases |w.levels| - k
  {
    if k == |w.levels| {
    } else if e < w.levels[k].clock + w.levels[k].tick {
      TruncateUnique(e, w.levels[k].tick, w.levels[k].clock);
    } else {
      var c := Truncate(e, w.levels[k].tick);
      MultiplesNotBelow(w.levels[k].clock, e, w.levels[k].tick);
      var w1 := w.(levels := w.levels[k := w.levels[k].(clock := c)]);
      forall j | 0 < j < |w.levels| && j != k + 1
        ensures Linked(w1, j)
      {
        assert j != k ==> Linked(w, j);
      }
      if k + 1 < |w.levels| {
        assert Linked(w, k + 1);
      }
      AdvanceShape(w1, k + 1, c);
    }
  }

  lemma MultiplesNotBelow(m: int, x: int, tick: int)
    requires tick > 0 && m % tick == 0 && m <= x
    ensures m <= Truncate(x, tick)
  {
    if Truncate(x, tick) < m {
      MultiplesApart(Truncate(x, tick), m, tick);
      assert false;
    }
  }

  ghost predicate Earliest(w: Wheel, e: int) {
    forall l :: BucketAt(w, l).expiration != IDLE ==> e <= BucketAt(w, l).expiration
  }

  /** Advancing to the earliest bucket's expiration keeps the invariant and leaves the finest
      clock exactly there. */
  lemma AdvanceInv(w: Wheel, l: Loc)
    requires Inv(w, Some(l)) && ValidLoc(w, l) && BucketAt(w, l).expiration != IDLE
    requires Earliest(w, BucketAt(w, l).expiration)
    ensures var w' := Advance(w, 0, BucketAt(w, l).expiration);
      && Inv(w', Some(l)) && ValidLoc(w', l)
      && w'.levels[0].clock == BucketAt(w, l).expiration
      && (forall m :: BucketAt(w', m) == BucketAt(w, m))
      && ClocksMoved(w, w', 0)
  {
    var e := BucketAt(w, l).expiration;
    var w' := Advance(w, 0, e);
    AdvanceShape(w, 0, e);
    assert BucketOk(w.levels[l.level], w.size, l.slot, BucketAt(w, l));
    CoarseIsFine(w, 0, l.level, e);
    assert forall m :: ValidLoc(w', m) <==> ValidLoc(w, m);
    assert forall m :: BucketAt(w', m) == BucketAt(w, m);
    assert forall it :: Armed(w', it) <==> Armed(w, it);
    forall m | ValidLoc(w', m)
      ensures BucketOk(w'.levels[m.level], w.size, m.slot, BucketAt(w', m))
    {
      assert BucketOk(w.levels[m.level], w.size, m.slot, BucketAt(w, m));
      ClocksDescend(w', 0, m.level);
    }
  }

  // ---------------------------------------------------------------- detach

  lemma {:induction false} RemoveIdLemma(ts: seq<Timer>, id: nat)
    requires NoDuplicates(ts)
    ensures NoDuplicates(RemoveId(ts, id)) && !Holds(RemoveId(ts, id), id)
    ensures forall x :: x in RemoveId(ts, id) <==> x in ts && x.id != id
  {
    if ts != [] && ts[0].id != id {
      var rest := RemoveId(ts[1..], id);
      RemoveIdLemma(ts[1..], id);
      assert ts == [ts[0]] + ts[1..];
      forall i, j | 0 <= i < j < |[ts[0]] + rest|
        ensures ([ts[0]] + rest)[i].id != ([ts[0]] + rest)[j].id
      {
        assert rest[j - 1] in rest;
      }
    }
  }

  ghost predicate DetachedAt(w: Wheel, w': Wheel, l: Loc, id: nat) {
    && w' == w.(levels := w'.levels, home := w.home - {id})
    && |w'.levels| == |w.levels|
    && (forall k :: 0 <= k < |w.levels| ==>
          w'.levels[k] == w.levels[k].(buckets := w'.levels[k].buckets)
          && |w'.levels[k].buckets| == |w.levels[k].buckets|)
    && (forall m :: m != l ==> BucketAt(w', m) == BucketAt(w, m))
    && BucketAt(w', l) == BucketAt(w, l).(timers := RemoveId(BucketAt(w, l).timers, id))
  }

  lemma DetachFrame(w: Wheel, l: Loc, id: nat)
    requires Shape(w) && ValidLoc(w, l)
    ensures Shape(Detach(w, l, id)) && DetachedAt(w, Detach(w, l, id), l, id)
  {
    var b := BucketAt(w, l);
    var w1 := WithBucket(w, l, b.(timers := RemoveId(b.timers, id)));
    assert forall m :: m != l ==> BucketAt(w1, m) == BucketAt(w, m);
    ShapeKept(w, Detach(w, l, id));
  }

  lemma DetachInv(w: Wheel, hole: Option<Loc>, id: nat)
    requires Inv(w, hole) && id in w.home
    ensures ValidLoc(w, w.home[id])
    ensures Inv(Detach(w, w.home[id], id), hole)
    ensures DetachedAt(w, Detach(w, w.home[id], id), w.home[id], id)
  {
    var l := w.home[id];
    assert Holds(BucketAt(w, l).timers, id);
    var w' := Detach(w, l, id);
    DetachFrame(w, l, id);
    DetachBuckets(w, hole, id);
    DetachHome(w, hole, id);
    assert forall m :: BucketAt(w', m).expiration == BucketAt(w, m).expiration;
    assert Ahead(w');
    assert forall it :: Armed(w', it) <==> Armed(w, it);
  }

  lemma DetachBuckets(w: Wheel, hole: Option<Loc>, id: nat)
    requires Inv(w, hole) && id in w.home && ValidLoc(w, w.home[id])
    requires Shape(Detach(w, w.home[id], id))
    ensures BucketsOk(Detach(w, w.home[id], id))
  {
    var l := w.home[id];
    var w' := Detach(w, l, id);
    var ts, ts' := BucketAt(w, l).timers, BucketAt(w', l).timers;
    assert PointHere(w.home, l, ts);
    RemoveIdLemma(ts, id);
    forall m | ValidLoc(w', m)
      ensures BucketOk(w'.levels[m.level], w'.size, m.slot, BucketAt(w', m))
    {
      assert BucketOk(w.levels[m.level], w.size, m.slot, BucketAt(w, m));
      if m == l {
        assert ts' == RemoveId(ts, id);
        assert forall j :: 0 <= j < |ts'| ==> ts'[j] in ts;
      } else {
        assert BucketAt(w', m) == BucketAt(w, m);
      }
    }
  }

  lemma DetachHome(w: Wheel, hole: Option<Loc>, id: nat)
    requires Inv(w, hole) && id in w.home && ValidLoc(w, w.home[id])
    ensures HomeOk(Detach(w, w.home[id], id))
  {
    var l := w.home[id];
    var w' := Detach(w, l, id);
    DetachFrame(w, l, id);
    forall x | x in w'.home
      ensures Holds(BucketAt(w', w'.home[x]).timers, x)
    {
      DetachHeld(w, id, x);
    }
    forall m
      ensures PointHere(w'.home, m, BucketAt(w', m).timers)
    {
      DetachPoints(w, id, m);
    }
  }

  lemma DetachHeld(w: Wheel, id: nat, x: nat)
    requires Shape(w) && HomeOk(w) && id in w.home && ValidLoc(w, w.home[id]) && x in w.home && x != id
    ensures Holds(BucketAt(Detach(w, w.home[id], id), w.home[x]).timers, x)
  {
    var l := w.home[id];
    var ts := BucketAt(w, l).timers;
    DetachFrame(w, l, id);
    assert Holds(BucketAt(w, w.home[x]).timers, x);
    if w.home[x] == l {
      assert PointHere(w.home, l, ts);
      RemoveIdLemma(ts, id);
      var j :| 0 <= j < |ts| && ts[j].id == x;
      assert ts[j] in RemoveId(ts, id);
    }
  }

  lemma DetachPoints(w: Wheel, id: nat, m: Loc)
    requires Shape(w) && HomeOk(w) && id in w.home && ValidLoc(w, w.home[id])
    ensures PointHere(w.home - {id}, m, BucketAt(Detach(w, w.home[id], id), m).timers)
  {
    var l := w.home[id];
    var ts := BucketAt(w, m).timers;
    DetachFrame(w, l, id);
    assert PointHere(w.home, m, ts);
    if m == l {
      RemoveIdLemma(ts, id);
      assert forall j :: 0 <= j < |RemoveId(ts, id)| ==> RemoveId(ts, id)[j] in ts;
    } else {
      assert forall j :: 0 <= j < |ts| ==> ts[j].id != id;
    }
  }
}
