/** The timing wheel as the source has it: wheel objects chained by overflow pointers, bucket
    objects reused modulo the wheel size, timers pointing back to their bucket, and one shared
    delay queue. Each method is tied to its value-level step. */
module TimingWheel {
  import opened Arithmetic
  import Bags
  import Spec = TimingWheelSpec
  import Runs = TimingWheelRuns
  import DQ = DelayQueue

  class Timer {
    const id: nat
    const expiration: int
    var b: Bucket?

    constructor (id: nat, expiration: int)
      ensures this.id == id && this.expiration == expiration && b == null
    {
      this.id, this.expiration, this.b := id, expiration, null;
    }

    function View(): Spec.Timer {
      Spec.Timer(id, expiration)
    }
  }

  class Bucket {
    ghost const loc: Spec.Loc
    var expiration: int
    var timers: seq<Timer>

    constructor (ghost loc: Spec.Loc)
      ensures this.loc == loc && expiration == Spec.IDLE && timers == []
    {
      this.loc := loc;
      expiration, timers := Spec.IDLE, [];
    }

    /** Swaps in the new expiration; true when it differs from the old one. */
    method SetExpiration(e: int) returns (changed: bool)
      modifies `expiration
      ensures expiration == e && changed == (old(expiration) != e)
    {
      changed := expiration != e;
      expiration := e;
    }

    method Add(t: Timer)
      modifies `timers, t
      ensures timers == old(timers) + [t] && t.b == this
    {
      timers := timers + [t];
      t.b := this;
    }
  }

  /** What only the root wheel uses: the id counter and the goroutines started for due tasks. */
  class RootState {
    var autoId: nat
    var started: seq<Timer>
    ghost var past: Runs.World   // the history; its wheel field is not used

    constructor ()
      ensures autoId == 0 && started == []
    {
      autoId, started := 0, [];
    }

    /** The tasks started are the firings of the history, and ids are handed out in order. */
    ghost predicate Launched()
      reads this
    {
      && autoId == |past.issued|
      && |started| == |past.fired|
      && forall i :: 0 <= i < |started| ==> started[i].View() == past.fired[i].timer
    }

    method Go(t: Timer, ghost now: int)
      requires Launched()
      modifies `started, `past
      ensures Launched() && past == old(past).(fired := old(past).fired + [Runs.Firing(t.View(), now)])
    {
      started := started + [t];
      past := past.(fired := past.fired + [Runs.Firing(t.View(), now)]);
    }

    method NextId() returns (id: nat)
      modifies `autoId
      ensures id == autoId == old(autoId) + 1
    {
      autoId := autoId + 1;
      id := autoId;
    }
  }

  ghost predicate Shows(b: Bucket, v: Spec.Bucket)
    reads b
  {
    && b.expiration == v.expiration
    && |b.timers| == |v.timers|
    && forall j :: 0 <= j < |b.timers| ==> b.timers[j].View() == v.timers[j]
  }

  ghost function ItemView(x: DQ.Item<Bucket>): Spec.Item {
    Spec.Item(x.value.loc, x.priority)
  }

  ghost function QueueView(heap: seq<DQ.Item<Bucket>>): multiset<Spec.Item> {
    Bags.Bag(heap, ItemView)
  }

  /** Ghost bookkeeping shared by all wheels of one hierarchy: the chain of wheels, their buckets,
      the timers issued so far by their ids, and the value all of them stand for. */
  class Hierarchy {
    const queue: DQ.PriorityQueue<Bucket>
    const root: RootState
    ghost var levels: seq<TimingWheel>
    ghost var buckets: set<Bucket>
    ghost var timers: map<nat, Timer>
    ghost var wheel: Spec.Wheel

    ghost predicate Valid()
      reads this, levels, buckets, timers.Values, queue, queue.pq, queue.repr
    {
      LevelsOk() && BucketsOk() && TimersOk() && QueueOk()
    }

    ghost predicate LevelsOk()
      reads this, levels
    {
      && |levels| == |wheel.levels| >= 1
      && forall k :: 0 <= k < |levels| ==> WheelOk(k)
    }

    ghost predicate WheelOk(k: int)
      reads this, levels
    {
      && 0 <= k < |levels| == |wheel.levels|
      && var w, v := levels[k], wheel.levels[k];
      && w.sys == this && w.tick == v.tick && w.currentTime == v.clock
      && w.wheelSize == wheel.size == |w.buckets| == |v.buckets|
      && w.interval == w.tick * w.wheelSize
      && w.overflowWheel == (if k + 1 < |levels| then levels[k + 1] else null)
      && (forall i :: 0 <= i < |w.buckets| ==> w.buckets[i] in buckets && w.buckets[i].loc == Spec.Loc(k, i))
    }

    ghost predicate BucketsOk()
      reads this, levels, buckets
    {
      forall b :: b in buckets ==>
        && Spec.ValidLoc(wheel, b.loc)
        && b.loc.level < |levels| && b.loc.slot < |levels[b.loc.level].buckets|
        && levels[b.loc.level].buckets[b.loc.slot] == b
        && Shows(b, Spec.BucketAt(wheel, b.loc))
    }

    /** A timer's b pointer is the bucket that holds it, and null when none does. */
    ghost predicate TimersOk()
      reads this, buckets, timers.Values
    {
      && wheel.home.Keys <= timers.Keys
      && (forall id :: id in timers ==> timers[id].id == id && HomeShown(timers[id]))
      && (forall b, j :: b in buckets && 0 <= j < |b.timers| ==>
            Known(b.timers[j]) && b.timers[j].b == b)
    }

    ghost predicate HomeShown(t: Timer)
      reads this, t
    {
      if t.b == null then t.id !in wheel.home
      else t.b in buckets && t.id in wheel.home && wheel.home[t.id] == t.b.loc
    }

    /** Timer t was issued here. */
    ghost predicate Known(t: Timer)
      reads this
    {
      t.id in timers && timers[t.id] == t
    }

    /** The root's account is right, and ids above its counter are free. */
    ghost predicate Launched()
      reads this, root
    {
      root.Launched() && forall id :: id in timers ==> id <= root.autoId
    }

    ghost predicate QueueOk()
      reads this, queue, queue.pq, queue.repr
    {
      && queue.Valid()
      && QueueView(queue.heap) == wheel.queue
      && forall x :: x in queue.heap ==> x.value in buckets
    }

    ghost function World(): Runs.World
      reads this, root
    {
      root.past.(wheel := wheel)
    }

    constructor (size: nat)
      requires size >= 1
      ensures queue.Valid() && queue.heap == [] && queue.repr == {} && fresh(queue) && fresh(queue.pq)
      ensures root.autoId == 0 && root.started == [] && fresh(root)
      ensures levels == [] && buckets == {} && timers == map[]
    {
      queue := new DQ.PriorityQueue<Bucket>(size);
      root := new RootState();
      levels, buckets, timers := [], {}, map[];
    }

    /** The wheel `first` becomes the finest level of a hierarchy without timers. */
    ghost method Install(first: TimingWheel, past: Runs.World)
      requires queue.Valid() && queue.heap == [] && timers == map[] && root.autoId == 0 && root.started == []
      requires first.sys == this && first.overflowWheel == null
      requires first.interval == first.tick * first.wheelSize && first.wheelSize == |first.buckets|
      requires forall i :: 0 <= i < |first.buckets| ==>
        && first.buckets[i].loc == Spec.Loc(0, i)
        && first.buckets[i].expiration == Spec.IDLE && first.buckets[i].timers == []
      requires past.issued == [] && past.fired == []
      requires past.wheel == Spec.Wheel(first.wheelSize,
                 [Spec.Level(first.tick, first.currentTime, Spec.IdleBuckets(first.wheelSize))], multiset{}, map[])
      modifies this, root`past
      ensures Valid() && Launched() && World() == past && levels == [first]
      ensures timers == map[] && buckets == set b | b in first.buckets
    {
      levels, buckets := [first], set b | b in first.buckets;
      root.past, wheel := past, past.wheel;
      assert WheelOk(0);
      IdleShown(first);
    }

    /** The buckets of a hierarchy of one wheel without timers. */
    lemma IdleShown(first: TimingWheel)
      requires levels == [first] && buckets == set b | b in first.buckets
      requires forall i :: 0 <= i < |first.buckets| ==>
        && first.buckets[i].loc == Spec.Loc(0, i)
        && first.buckets[i].expiration == Spec.IDLE && first.buckets[i].timers == []
      requires wheel.size == |first.buckets|
      requires exists tick, clock :: wheel.levels == [Spec.Level(tick, clock, Spec.IdleBuckets(wheel.size))]
      ensures BucketsOk() && forall b :: b in buckets ==> b.timers == []
    {
      forall b | b in buckets
        ensures Spec.ValidLoc(wheel, b.loc) && b.loc.level == 0 && Shows(b, Spec.BucketAt(wheel, b.loc))
        ensures first.buckets[b.loc.slot] == b
      {
        var i :| 0 <= i < |first.buckets| && first.buckets[i] == b;
      }
    }

    /** Timer t, just made, is issued here. */
    method Issue(t: Timer)
      requires Valid() && t.id !in timers && t.b == null && t.id !in wheel.home
      modifies `timers
      ensures Valid() && timers == old(timers)[t.id := t]
    {
      timers := timers[t.id := t];
      KeepsLevels();
    }

    /** The history moves on, which no wheel notices. */
    ghost method Note(past: Runs.World)
      requires Valid()
      modifies root`past
      ensures Valid() && root.past == past
      ensures old(Launched()) && past.issued == old(root.past.issued) && past.fired == old(root.past.fired) ==>
        Launched()
    {
      root.past := past;
    }

    /** The queue's part of a poll: a least item when it is due at `now`. */
    method TakeDue(now: int) returns (x: DQ.Item?<Bucket>)
      requires Valid()
      modifies `wheel, queue, queue.pq, queue.repr
      ensures Valid()
      ensures QueueGrown(this)
      ensures x == null ==> wheel == old(wheel) && forall it :: it in wheel.queue ==> now < it.priority
      ensures x != null ==>
        && x.value in buckets && ItemView(x) in old(wheel.queue) && x.priority <= now
        && (forall it :: it in old(wheel.queue) ==> x.priority <= it.priority)
        && wheel == old(wheel).(queue := old(wheel).queue - multiset{ItemView(x)})
    {
      x := PeekView(now);
      Requeue();
    }

    /** PeekAndShift, in terms of what the queue shows. */
    method PeekView(now: int) returns (x: DQ.Item?<Bucket>)
      requires queue.Valid()
      modifies queue, queue.pq, queue.repr
      ensures queue.Valid() && QueueGrown(this)
      ensures forall y :: y in queue.heap ==> y in old(queue.heap)
      ensures x == null ==> queue.heap == old(queue.heap)
      ensures x == null ==> forall it :: it in QueueView(queue.heap) ==> now < it.priority
      ensures x != null ==>
        && x in old(queue.heap) && ItemView(x) in old(QueueView(queue.heap)) && x.priority <= now
        && (forall it :: it in old(QueueView(queue.heap)) ==> x.priority <= it.priority)
        && QueueView(queue.heap) == old(QueueView(queue.heap)) - multiset{ItemView(x)}
    {
      ghost var before := queue.heap;
      var delta;
      x, delta := queue.PeekAndShift(now);
      Bags.Elements(before, ItemView);
      if x != null {
        Bags.Removed<DQ.Item<Bucket>, Spec.Item>(before, queue.heap, x, ItemView);
        NothingAdded(before, queue.heap);
      }
    }

    /** The wheel value follows the queue. */
    ghost method Requeue()
      requires LevelsOk() && BucketsOk() && TimersOk() && queue.Valid()
      requires forall y :: y in queue.heap ==> y.value in buckets
      modifies `wheel
      ensures Valid() && wheel == old(wheel).(queue := QueueView(queue.heap))
    {
      wheel := wheel.(queue := QueueView(queue.heap));
      assert forall m :: Spec.BucketAt(wheel, m) == Spec.BucketAt(old(wheel), m);
      KeepsLevels();
    }

    /** SetExpiration(-1) at the end of a flush. */
    method Disarm(b: Bucket)
      requires Valid() && b in buckets
      modifies `wheel, b`expiration
      ensures Valid() && Spec.ValidLoc(old(wheel), b.loc)
      ensures wheel == old(Spec.WithBucket(wheel, b.loc, Spec.BucketAt(wheel, b.loc).(expiration := Spec.IDLE)))
    {
      var _ := b.SetExpiration(Spec.IDLE);
      wheel := Spec.WithBucket(wheel, b.loc, Spec.BucketAt(wheel, b.loc).(expiration := Spec.IDLE));
      DisarmShown(b);
    }

    twostate lemma DisarmShown(b: Bucket)
      requires old(Valid()) && b in buckets
      requires levels == old(levels) && buckets == old(buckets) && timers == old(timers)
      requires wheel == old(Spec.WithBucket(wheel, b.loc, Spec.BucketAt(wheel, b.loc).(expiration := Spec.IDLE)))
      requires b.timers == old(b.timers) && b.expiration == Spec.IDLE
      requires forall w :: w in levels ==> unchanged(w)
      requires forall c :: c in buckets && c != b ==> unchanged(c)
      requires forall id :: id in timers ==> unchanged(timers[id])
      requires queue.Valid() && queue.heap == old(queue.heap)
      ensures Valid()
    {
      WithBucketFrame(old(wheel), b.loc, Spec.BucketAt(old(wheel), b.loc).(expiration := Spec.IDLE));
      KeepsLevels();
      KeepsBuckets(b);
      KeepsTimers();
    }

    /** The timers stay where they are. */
    twostate lemma KeepsTimers()
      requires old(TimersOk()) && buckets == old(buckets) && timers == old(timers)
      requires wheel.home == old(wheel.home)
      requires forall b :: b in buckets ==> b.timers == old(b.timers)
      requires forall id :: id in timers ==> unchanged(timers[id])
      ensures TimersOk()
    {
      forall b, j | b in buckets && 0 <= j < |b.timers|
        ensures Known(b.timers[j]) && b.timers[j].b == b
      {
        assert old(Known(b.timers[j]) && b.timers[j].b == b);
      }
      forall id | id in timers ensures timers[id].id == id && HomeShown(timers[id]) {
        assert old(HomeShown(timers[id]));
      }
    }

    /** The wheels keep standing for the levels while ticks and clocks stay. */
    twostate lemma KeepsLevels()
      requires old(LevelsOk()) && levels == old(levels) && old(buckets) <= buckets
      requires SameFrame(old(wheel), wheel)
      requires forall w :: w in levels ==> unchanged(w)
      ensures LevelsOk()
    {
      forall k | 0 <= k < |levels|
        ensures WheelOk(k)
      {
        assert old(WheelOk(k));
        assert levels[k] in levels;
      }
    }

    /** Only bucket b changed, in the heap and in the value alike. */
    twostate lemma KeepsBuckets(b: Bucket)
      requires old(LevelsOk() && BucketsOk()) && LevelsOk()
      requires levels == old(levels) && old(buckets) == buckets && b in buckets
      requires SameFrame(old(wheel), wheel)
      requires forall c :: c in buckets && c != b ==> unchanged(c)
      requires forall m :: m != b.loc ==> Spec.BucketAt(wheel, m) == Spec.BucketAt(old(wheel), m)
      requires Shows(b, Spec.BucketAt(wheel, b.loc))
      ensures BucketsOk()
    {
      forall c | c in buckets
        ensures Spec.ValidLoc(wheel, c.loc)
        ensures c.loc.slot < |levels[c.loc.level].buckets|
        ensures levels[c.loc.level].buckets[c.loc.slot] == c
        ensures Shows(c, Spec.BucketAt(wheel, c.loc))
      {
        assert old(WheelOk(c.loc.level)) && WheelOk(c.loc.level);
      }
    }

    /** Timer t is new in bucket b; no other bucket and no other timer changed. */
    twostate lemma AttachTimer(b: Bucket, new t: Timer)
      requires old(TimersOk()) && old(buckets) == buckets && b in buckets && old(timers) == timers
      requires Known(t) && t.id !in old(wheel.home)
      requires wheel.home == old(wheel.home)[t.id := b.loc]
      requires t.b == b && b.timers == old(b.timers) + [t]
      requires forall c :: c in buckets && c != b ==> unchanged(c)
      requires forall id :: id in timers && id != t.id ==> unchanged(timers[id])
      ensures TimersOk()
    {
    }

    /** Bucket b takes timer t and expiration e, and is enqueued when that changed its expiration. */
    method Place(t: Timer, b: Bucket, e: int)
      requires Valid() && b in buckets && Known(t) && t.id !in wheel.home
      modifies `wheel, b, t, queue, queue.pq, queue.repr
      ensures Valid()
      ensures wheel == Spec.Placed(old(wheel), b.loc, e, t.View())
      ensures QueueGrown(this)
    {
      Fill(t, b, e);
      wheel := Spec.Placed(wheel, b.loc, e, t.View());
      PlaceShown(b, t, e);
    }

    /** The bucket's and the queue's part of it. */
    method Fill(t: Timer, b: Bucket, e: int)
      requires queue.Valid()
      modifies b, t, queue, queue.pq, queue.repr
      ensures queue.Valid() && t.b == b && b.timers == old(b.timers) + [t] && b.expiration == e
      ensures old(b.expiration) == e ==> QueueView(queue.heap) == old(QueueView(queue.heap))
      ensures old(b.expiration) != e ==>
        QueueView(queue.heap) == old(QueueView(queue.heap)) + multiset{Spec.Item(b.loc, e)}
      ensures forall x :: x in queue.heap ==> x.value == b || x in old(queue.heap)
      ensures QueueGrown(this)
    {
      b.Add(t);
      SetAndOffer(b, e);
    }

    /** Sets b's expiration; b needs to be enqueued only when that changed it. */
    method SetAndOffer(b: Bucket, e: int)
      requires queue.Valid()
      modifies b`expiration, queue, queue.pq, queue.repr
      ensures queue.Valid() && b.expiration == e
      ensures old(b.expiration) == e ==> QueueView(queue.heap) == old(QueueView(queue.heap))
      ensures old(b.expiration) != e ==>
        QueueView(queue.heap) == old(QueueView(queue.heap)) + multiset{Spec.Item(b.loc, e)}
      ensures forall x :: x in queue.heap ==> x.value == b || x in old(queue.heap)
      ensures QueueGrown(this)
    {
      var changed := b.SetExpiration(e);
      if changed {
        Offer(b, b.expiration);
      }
    }

    twostate lemma PlaceShown(b: Bucket, new t: Timer, new e: int)
      requires old(Valid()) && b in buckets && Known(t) && t.id !in old(wheel.home)
      requires levels == old(levels) && buckets == old(buckets) && timers == old(timers)
      requires wheel == Spec.Placed(old(wheel), b.loc, e, t.View())
      requires t.b == b && b.timers == old(b.timers) + [t] && b.expiration == e
      requires forall w :: w in levels ==> unchanged(w)
      requires forall c :: c in buckets && c != b ==> unchanged(c)
      requires forall id :: id in timers && id != t.id ==> unchanged(timers[id])
      requires queue.Valid() && forall x :: x in queue.heap ==> x.value == b || x in old(queue.heap)
      requires old(b.expiration) == e ==> QueueView(queue.heap) == old(QueueView(queue.heap))
      requires old(b.expiration) != e ==>
        QueueView(queue.heap) == old(QueueView(queue.heap)) + multiset{Spec.Item(b.loc, e)}
      ensures Valid()
    {
      PlacedFrame(old(wheel), b.loc, e, t.View());
      KeepsLevels();
      KeepsBuckets(b);
      AttachTimer(b, t);
    }

    /** bucket.remove: takes t out of its bucket and clears its b pointer. */
    method Detach(t: Timer, b: Bucket)
      requires Valid() && Spec.HomeOk(wheel)
      requires Known(t) && t.b == b
      modifies `wheel, b`timers, t
      ensures Valid() && t.b == null
      ensures b.timers == Without(old(b.timers), t)
      ensures Spec.ValidLoc(old(wheel), b.loc) && old(wheel).home[t.id] == b.loc
      ensures wheel == Spec.Detach(old(wheel), b.loc, t.id)
    {
      b.timers := Without(b.timers, t);
      t.b := null;
      wheel := Spec.Detach(wheel, b.loc, t.id);
      DetachShown(b, t);
    }

    twostate lemma DetachShown(b: Bucket, new t: Timer)
      requires old(Valid()) && Spec.HomeOk(old(wheel)) && b in buckets
      requires levels == old(levels) && buckets == old(buckets) && timers == old(timers)
      requires Known(t) && t.b == null && old(timers[t.id].b) == b
      requires wheel == Spec.Detach(old(wheel), b.loc, t.id)
      requires b.timers == Without(old(b.timers), t) && b.expiration == old(b.expiration)
      requires forall w :: w in levels ==> unchanged(w)
      requires forall c :: c in buckets && c != b ==> unchanged(c)
      requires forall id :: id in timers && id != t.id ==> unchanged(timers[id])
      requires queue.Valid() && queue.heap == old(queue.heap)
      ensures Valid()
    {
      var w := old(wheel);
      assert Spec.PointHere(w.home, b.loc, Spec.BucketAt(w, b.loc).timers);
      WithoutShows(old(b.timers), Spec.BucketAt(w, b.loc).timers, t);
      DetachedFrame(w, b.loc, t.id);
      KeepsLevels();
      KeepsBuckets(b);
      DetachTimer(b, t);
    }

    /** The clock of level k moves. */
    method SetClock(w: TimingWheel, c: int, ghost k: int)
      requires Valid() && 0 <= k < |levels| && levels[k] == w && wheel.size >= 1
      modifies `wheel, w`currentTime
      ensures Valid() && wheel == Clocked(old(wheel), k, c)
    {
      w.currentTime := c;
      wheel := Clocked(wheel, k, c);
      ClockShown(w, c, k);
    }

    twostate lemma ClockShown(w: TimingWheel, new c: int, new k: int)
      requires old(Valid()) && 0 <= k < |levels| && levels[k] == w && wheel.size >= 1
      requires levels == old(levels) && buckets == old(buckets) && timers == old(timers)
      requires wheel == Clocked(old(wheel), k, c)
      requires w.currentTime == c && w.overflowWheel == old(w.overflowWheel)
      requires forall v :: v in levels && v != w ==> unchanged(v)
      requires forall b :: b in buckets ==> unchanged(b)
      requires forall id :: id in timers ==> unchanged(timers[id])
      requires queue.Valid() && queue.heap == old(queue.heap)
      ensures Valid()
    {
      ClockLevels(w, c, k);
      ClockBuckets(k, c);
      KeepsTimers();
    }

    twostate lemma ClockBuckets(new k: int, new c: int)
      requires old(BucketsOk()) && old(LevelsOk()) && LevelsOk() && 0 <= k < |levels|
      requires levels == old(levels) && buckets == old(buckets) && wheel == Clocked(old(wheel), k, c)
      requires forall b :: b in buckets ==> unchanged(b)
      ensures BucketsOk()
    {
      assert forall m :: Spec.BucketAt(wheel, m) == Spec.BucketAt(old(wheel), m);
      assert forall b :: b in buckets ==> old(WheelOk(b.loc.level)) && WheelOk(b.loc.level);
    }

    twostate lemma ClockLevels(w: TimingWheel, new c: int, new k: int)
      requires old(LevelsOk()) && 0 <= k < |levels| && levels[k] == w && wheel.size >= 1
      requires levels == old(levels) && buckets == old(buckets) && wheel == Clocked(old(wheel), k, c)
      requires w.currentTime == c && w.overflowWheel == old(w.overflowWheel)
      requires forall v :: v in levels && v != w ==> unchanged(v)
      ensures LevelsOk()
    {
      forall j | 0 <= j < |levels|
        ensures WheelOk(j)
      {
        assert old(WheelOk(j)) && old(WheelOk(k));
        assert levels[j] in levels;
        if levels[j] == w {
          assert w.buckets[0].loc == Spec.Loc(j, 0) && w.buckets[0].loc == Spec.Loc(k, 0);
        }
      }
    }

    /** The wheel `next` becomes the overflow wheel of the top level. */
    method AddLevel(top: TimingWheel, next: TimingWheel)
      requires Valid() && Spec.Shape(wheel) && top == levels[|levels| - 1]
      requires Spec.Shape(Spec.Overflow(wheel))
      requires next !in levels && next.sys == this && next.overflowWheel == null
      requires next.tick == top.tick * top.wheelSize && next.wheelSize == top.wheelSize
      requires next.interval == next.tick * next.wheelSize && next.tick > 0
      requires next.currentTime == Truncate(top.currentTime, next.tick)
      requires |next.buckets| == next.wheelSize
      requires forall i :: 0 <= i < |next.buckets| ==>
        next.buckets[i] !in buckets && next.buckets[i].loc == Spec.Loc(|levels|, i)
        && next.buckets[i].expiration == Spec.IDLE && next.buckets[i].timers == []
      modifies this, top`overflowWheel
      ensures Valid() && levels == old(levels) + [next] && timers == old(timers)
      ensures buckets == old(buckets) + set b | b in next.buckets
      ensures wheel == Spec.Overflow(old(wheel))
    {
      top.overflowWheel := next;
      buckets := buckets + set b | b in next.buckets;
      levels := levels + [next];
      wheel := Spec.Overflow(wheel);
      LevelShown(top, next);
    }

    twostate lemma LevelShown(top: TimingWheel, new next: TimingWheel)
      requires old(Valid()) && Spec.Shape(old(wheel)) && top == old(levels)[|old(levels)| - 1]
      requires next !in old(levels)
      requires next.sys == this && next.overflowWheel == null
      requires next.tick == top.tick * top.wheelSize && next.wheelSize == top.wheelSize && next.tick > 0
      requires next.interval == next.tick * next.wheelSize
      requires next.currentTime == Truncate(top.currentTime, next.tick)
      requires |next.buckets| == next.wheelSize
      requires forall i :: 0 <= i < |next.buckets| ==>
        next.buckets[i] !in old(buckets) && next.buckets[i].loc == Spec.Loc(|old(levels)|, i)
        && next.buckets[i].expiration == Spec.IDLE && next.buckets[i].timers == []
      requires levels == old(levels) + [next] && timers == old(timers)
      requires buckets == old(buckets) + set b | b in next.buckets
      requires wheel == Spec.Overflow(old(wheel))
      requires top.overflowWheel == next && top.currentTime == old(top.currentTime)
      requires forall v :: v in old(levels) && v != top ==> unchanged(v)
      requires forall b :: b in old(buckets) ==> unchanged(b)
      requires forall id :: id in timers ==> unchanged(timers[id])
      requires queue.Valid() && queue.heap == old(queue.heap)
      ensures Valid()
    {
      var w, w' := old(wheel), wheel;
      var n := |old(levels)|;
      assert old(WheelOk(n - 1));
      assert Spec.LevelShape(w.levels[n - 1], w.size);
      forall j | 0 <= j < |levels|
        ensures WheelOk(j)
      {
        if j < n {
          assert old(WheelOk(j));
          assert old(levels)[j] in old(levels);
          assert old(levels)[j].buckets[0].loc == Spec.Loc(j, 0);
          assert top.buckets[0].loc == Spec.Loc(n - 1, 0);
        }
      }
      assert forall m :: Spec.BucketAt(w', m) == Spec.BucketAt(w, m);
      forall b | b in buckets
        ensures Spec.ValidLoc(w', b.loc) && b.loc.slot < |levels[b.loc.level].buckets|
        ensures levels[b.loc.level].buckets[b.loc.slot] == b
        ensures Shows(b, Spec.BucketAt(w', b.loc))
      {
        if b in old(buckets) {
          assert old(WheelOk(b.loc.level));
        }
      }
    }

    twostate lemma DetachTimer(b: Bucket, new t: Timer)
      requires old(TimersOk()) && old(buckets) == buckets && b in buckets && old(timers) == timers
      requires Known(t) && t.b == null && old(timers[t.id].b) == b
      requires wheel.home == old(wheel.home) - {t.id}
      requires forall x :: x in b.timers ==> x in old(b.timers) && x.id != t.id
      requires forall c :: c in buckets && c != b ==> unchanged(c)
      requires forall id :: id in timers && id != t.id ==> unchanged(timers[id])
      ensures TimersOk()
    {
      forall c, j | c in buckets && 0 <= j < |c.timers|
        ensures Known(c.timers[j]) && c.timers[j].b == c
      {
        if c == b {
          assert c.timers[j] in b.timers;
        } else {
          assert c.timers[j] == old(c.timers)[j];
        }
      }
    }

    /** DelayQueue.Offer: pushes the bucket under its expiration. */
    method Offer(b: Bucket, expiration: int)
      requires queue.Valid()
      modifies queue, queue.pq, queue.repr
      ensures queue.Valid()
      ensures QueueView(queue.heap) == old(QueueView(queue.heap)) + multiset{Spec.Item(b.loc, expiration)}
      ensures forall x :: x in queue.heap ==> x.value == b || x in old(queue.heap)
      ensures QueueGrown(this)
    {
      var x := new DQ.Item(b, expiration);
      ghost var before := queue.heap;
      queue.Insert(x);
      Bags.Added(before, queue.heap, x, ItemView);
      assert forall y :: y in queue.heap ==> y in multiset(queue.heap);
    }
  }

  function Without(ts: seq<Timer>, t: Timer): seq<Timer> {
    if ts == [] then []
    else if ts[0] == t then ts[1..]
    else [ts[0]] + Without(ts[1..], t)
  }

  /** Removing the object is removing its id, when ids name the objects. */
  lemma {:induction false} WithoutShows(ts: seq<Timer>, vs: seq<Spec.Timer>, t: Timer)
    requires |ts| == |vs| && forall j :: 0 <= j < |ts| ==> ts[j].View() == vs[j]
    requires forall j :: 0 <= j < |ts| && ts[j].id == t.id ==> ts[j] == t
    requires Spec.NoDuplicates(vs)
    ensures |Without(ts, t)| == |Spec.RemoveId(vs, t.id)|
    ensures forall j :: 0 <= j < |Without(ts, t)| ==> Without(ts, t)[j].View() == Spec.RemoveId(vs, t.id)[j]
    ensures forall x :: x in Without(ts, t) ==> x in ts && x.id != t.id
  {
    if ts != [] {
      if ts[0] == t {
        assert forall j :: 0 < j < |ts| ==> vs[j].id != vs[0].id;
      } else {
        WithoutShows(ts[1..], vs[1..], t);
      }
    }
  }

  lemma PlacedFrame(w: Spec.Wheel, l: Spec.Loc, e: int, t: Spec.Timer)
    requires Spec.ValidLoc(w, l)
    ensures var w' := Spec.Placed(w, l, e, t);
      && SameFrame(w, w') && w'.home == w.home[t.id := l]
      && (forall m :: m != l ==> Spec.BucketAt(w', m) == Spec.BucketAt(w, m))
      && Spec.BucketAt(w', l) == Spec.Bucket(e, Spec.BucketAt(w, l).timers + [t])
  {
    var v := Spec.Bucket(e, Spec.BucketAt(w, l).timers + [t]);
    WithBucketFrame(w, l, v);
    assert forall m :: Spec.BucketAt(Spec.Placed(w, l, e, t), m) == Spec.BucketAt(Spec.WithBucket(w, l, v), m);
  }

  lemma DetachedFrame(w: Spec.Wheel, l: Spec.Loc, id: nat)
    requires Spec.ValidLoc(w, l)
    ensures var w' := Spec.Detach(w, l, id);
      && SameFrame(w, w') && w'.home == w.home - {id} && w'.queue == w.queue
      && (forall m :: m != l ==> Spec.BucketAt(w', m) == Spec.BucketAt(w, m))
      && Spec.BucketAt(w', l) == Spec.BucketAt(w, l).(timers := Spec.RemoveId(Spec.BucketAt(w, l).timers, id))
  {
    var v := Spec.BucketAt(w, l);
    var v' := v.(timers := Spec.RemoveId(v.timers, id));
    WithBucketFrame(w, l, v');
    assert forall m :: Spec.BucketAt(Spec.Detach(w, l, id), m) == Spec.BucketAt(Spec.WithBucket(w, l, v'), m);
  }

  ghost function Clocked(w: Spec.Wheel, k: int, c: int): Spec.Wheel
    requires 0 <= k < |w.levels|
  {
    w.(levels := w.levels[k := w.levels[k].(clock := c)])
  }

  ghost predicate SameFrame(w: Spec.Wheel, w': Spec.Wheel) {
    && w'.size == w.size && |w'.levels| == |w.levels|
    && forall k :: 0 <= k < |w.levels| ==>
         w'.levels[k].tick == w.levels[k].tick && w'.levels[k].clock == w.levels[k].clock
         && |w'.levels[k].buckets| == |w.levels[k].buckets|
  }

  lemma WithBucketFrame(w: Spec.Wheel, l: Spec.Loc, v: Spec.Bucket)
    requires Spec.ValidLoc(w, l)
    ensures var w' := Spec.WithBucket(w, l, v);
      && SameFrame(w, w') && w' == w.(levels := w'.levels)
      && (forall m :: m != l ==> Spec.BucketAt(w', m) == Spec.BucketAt(w, m))
      && Spec.BucketAt(w', l) == v
  {
  }

  lemma NothingAdded<T>(h: seq<T>, h': seq<T>)
    requires multiset(h') <= multiset(h)
    ensures forall y :: y in h' ==> y in h
  {
    forall y | y in h' ensures y in h {
      assert y in multiset(h');
    }
  }

  class TimingWheel {
    const tick: int
    const wheelSize: int
    const interval: int
    var currentTime: int
    const buckets: seq<Bucket>
    var overflowWheel: TimingWheel?
    const sys: Hierarchy

    /** newTimingWheel, as level k of hierarchy `sys`. */
    constructor (tick: int, wheelSize: nat, start: int, sys: Hierarchy, ghost k: int)
      requires tick > 0
      ensures this.tick == tick && this.wheelSize == wheelSize && interval == tick * wheelSize
      ensures currentTime == Truncate(start, tick) && overflowWheel == null && this.sys == sys
      ensures |buckets| == wheelSize
      ensures forall i :: 0 <= i < |buckets| ==>
        fresh(buckets[i]) && buckets[i].loc == Spec.Loc(k, i)
        && buckets[i].expiration == Spec.IDLE && buckets[i].timers == []
    {
      var bs: seq<Bucket> := [];
      for i := 0 to wheelSize
        invariant |bs| == i
        invariant forall j :: 0 <= j < i ==>
          fresh(bs[j]) && bs[j].loc == Spec.Loc(k, j) && bs[j].expiration == Spec.IDLE && bs[j].timers == []
      {
        var b := new Bucket(Spec.Loc(k, i));
        bs := bs + [b];
      }
      this.tick, this.wheelSize, this.interval := tick, wheelSize, tick * wheelSize;
      currentTime, buckets, overflowWheel, this.sys := Truncate(start, tick), bs, null, sys;
    }

    /** Puts t into its bucket of this level and arms the bucket. */
    method PutInBucket(t: Timer, ghost k: int)
      requires sys.Valid() && 0 <= k < |sys.levels| && sys.levels[k] == this
      requires Spec.Shape(sys.wheel) && sys.Known(t) && t.id !in sys.wheel.home
      modifies sys, sys.buckets, t, sys.queue, sys.queue.pq, sys.queue.repr
      ensures sys.Valid() && sys.levels == old(sys.levels) && sys.buckets == old(sys.buckets)
      ensures sys.wheel == Spec.Insert(old(sys.wheel), k, t.View())
      ensures sys.timers == old(sys.timers)
      ensures QueueGrown(sys)
    {
      ghost var w := sys.wheel;
      assert sys.WheelOk(k) && Spec.LevelShape(w.levels[k], w.size);
      var virtualID := t.expiration / tick;
      var b := buckets[virtualID % wheelSize];
      sys.Place(t, b, virtualID * tick);
    }

    /** The compare-and-swap that installs a new overflow wheel when there is none. */
    method EnsureOverflow(ghost k: int)
      requires sys.Valid() && 0 <= k < |sys.levels| && sys.levels[k] == this
      requires Spec.Shape(sys.wheel)
      modifies sys, this`overflowWheel
      ensures sys.Valid() && Grown(sys)
      ensures sys.timers == old(sys.timers)
      ensures k + 1 == |old(sys.levels)| ==> |sys.levels| == k + 2
      ensures k + 1 < |sys.levels| && overflowWheel == sys.levels[k + 1]
      ensures sys.wheel ==
        if k + 1 == |old(sys.levels)| then Spec.Overflow(old(sys.wheel)) else old(sys.wheel)
    {
      assert sys.WheelOk(k);
      if overflowWheel == null {
        ghost var w := sys.wheel;
        Spec.OverflowShape(w);
        MulMonotone(2, w.size, tick);
        var next := new TimingWheel(interval, wheelSize, currentTime, sys, k + 1);
        sys.AddLevel(this, next);
        assert sys.WheelOk(k);
      }
    }

    /** add: the timer goes to this wheel or, out of its interval, to the overflow wheel. */
    method Add(t: Timer, ghost k: int) returns (ok: bool)
      requires sys.Valid() && 0 <= k < |sys.levels| && sys.levels[k] == this
      requires Spec.Shape(sys.wheel) && sys.Known(t) && t.id !in sys.wheel.home
      modifies sys, sys.levels, sys.buckets, t, sys.queue, sys.queue.pq, sys.queue.repr
      ensures sys.Valid() && Grown(sys) && QueueGrown(sys)
      ensures sys.timers == old(sys.timers)
      ensures (sys.wheel, ok) == Spec.Add(old(sys.wheel), k, t.View())
      decreases t.expiration - tick, 1
    {
      assert sys.WheelOk(k) && Spec.LevelShape(sys.wheel.levels[k], sys.wheel.size);
      if t.expiration < currentTime + tick {
        return false;
      } else if t.expiration < currentTime + interval {
        PutInBucket(t, k);
        return true;
      }
      ok := AddAbove(t, k);
    }

    /** A timer out of this wheel's interval goes to the overflow wheel, which is made on demand. */
    method AddAbove(t: Timer, ghost k: int) returns (ok: bool)
      requires sys.Valid() && 0 <= k < |sys.levels| && sys.levels[k] == this
      requires Spec.Shape(sys.wheel) && sys.Known(t) && t.id !in sys.wheel.home
      requires t.expiration >= currentTime + interval
      modifies sys, sys.levels, sys.buckets, t, sys.queue, sys.queue.pq, sys.queue.repr
      ensures sys.Valid() && Grown(sys) && QueueGrown(sys)
      ensures sys.timers == old(sys.timers)
      ensures (sys.wheel, ok) == Spec.Add(old(sys.wheel), k, t.View())
      decreases t.expiration - tick, 0
    {
      assert sys.WheelOk(k);
      Spec.AddedAbove(sys.wheel, k, t.View());
      EnsureOverflow(k);
      assert sys.WheelOk(k + 1);
      ok := overflowWheel.Add(t, k + 1);
    }

    /** advanceClock: this wheel's clock, and the overflow wheels' while a clock moves. */
    method AdvanceClock(expiration: int, ghost k: int)
      requires sys.Valid() && 0 <= k < |sys.levels| && sys.levels[k] == this
      requires sys.wheel.size >= 1
      requires forall j :: 0 <= j < |sys.levels| ==> sys.wheel.levels[j].tick > 0
      modifies sys`wheel, sys.levels
      ensures sys.Valid() && sys.levels == old(sys.levels) && sys.buckets == old(sys.buckets)
      ensures sys.timers == old(sys.timers)
      ensures sys.wheel == Spec.Advance(old(sys.wheel), k, expiration)
      decreases |sys.levels| - k
    {
      assert sys.WheelOk(k);
      if expiration >= currentTime + tick {
        var c := Truncate(expiration, tick);
        sys.SetClock(this, c, k);
        assert sys.WheelOk(k);
        if overflowWheel != null {
          assert sys.WheelOk(k + 1);
          overflowWheel.AdvanceClock(c, k + 1);
        }
      }
    }

    /** Runs the task of an expired timer in a goroutine of its own. */
    method AddOrRun(t: Timer)
      requires sys.Valid() && sys.Launched() && sys.levels[0] == this
      requires Spec.Shape(sys.wheel) && sys.Known(t) && t.id !in sys.wheel.home
      modifies sys, sys.levels, sys.buckets, t, sys.queue, sys.queue.pq, sys.queue.repr, sys.root
      ensures sys.Valid() && sys.Launched() && Grown(sys) && QueueGrown(sys)
      ensures sys.timers == old(sys.timers)
      ensures sys.World() == Runs.AddOrRun(old(sys.World()), t.View())
    {
      ghost var s := sys.World();
      var ok := Add(t, 0);
      if !ok {
        sys.root.Go(t, s.now);
      }
    }

    /** AfterFunc at time `now`, with the expiration already computed. */
    method AfterFunc(expiration: int, ghost now: int) returns (t: Timer)
      requires sys.Valid() && sys.Launched() && sys.levels[0] == this
      requires Runs.WorldInv(sys.World(), Runs.NO_HOLE) && sys.root.past.now <= now
      modifies sys, sys.levels, sys.buckets, sys.queue, sys.queue.pq, sys.queue.repr, sys.root
      ensures sys.Valid() && sys.Launched() && Grown(sys) && QueueGrown(sys)
      ensures sys.timers == old(sys.timers)[t.id := t] && t.id !in old(sys.timers)
      ensures sys.World() == Runs.AfterFunc(old(sys.World()).(now := now), expiration)
      ensures fresh(t) && t.expiration == expiration && t.id == sys.root.autoId
    {
      NextIdFree(sys.World());
      t := Schedule(expiration, now);
    }

    method Schedule(expiration: int, ghost now: int) returns (t: Timer)
      requires sys.Valid() && sys.Launched() && sys.levels[0] == this
      requires Spec.Shape(sys.wheel) && |sys.root.past.issued| + 1 !in sys.wheel.home
      modifies sys, sys.levels, sys.buckets, sys.queue, sys.queue.pq, sys.queue.repr, sys.root
      ensures sys.Valid() && sys.Launched() && Grown(sys) && QueueGrown(sys)
      ensures sys.timers == old(sys.timers)[t.id := t] && t.id !in old(sys.timers)
      ensures sys.World() == Runs.AfterFunc(old(sys.World()).(now := now), expiration)
      ensures fresh(t) && t.expiration == expiration && t.id == sys.root.autoId
    {
      t := NewTimer(expiration, now);
      AddOrRun(t);
    }

    /** The timer with the next id, in no bucket yet. */
    method NewTimer(expiration: int, ghost now: int) returns (t: Timer)
      requires sys.Valid() && sys.Launched()
      requires |sys.root.past.issued| + 1 !in sys.wheel.home
      modifies sys`timers, sys.root`autoId, sys.root`past
      ensures sys.Valid() && sys.Launched()
      ensures sys.timers == old(sys.timers)[t.id := t] && t.id !in old(sys.timers) && t.id !in sys.wheel.home
      ensures var w := old(sys.World());
        sys.World() == w.(now := now, issued := w.issued + [expiration], hops := w.hops[t.id := 0])
      ensures fresh(t) && t.b == null && t.expiration == expiration && t.id == sys.root.autoId
      ensures t.id == |old(sys.root.past.issued)| + 1
    {
      ghost var w := sys.World();
      var id := sys.root.NextId();
      t := new Timer(id, expiration);
      sys.Note(sys.root.past.(now := now, issued := w.issued + [expiration], hops := w.hops[id := 0]));
      sys.Issue(t);
    }

    /** Timer.Stop. */
    method Stop(t: Timer) returns (stopped: bool)
      requires sys.Valid() && sys.Launched() && Runs.WorldInv(sys.World(), Runs.NO_HOLE)
      requires sys.Known(t)
      modifies sys`wheel, sys.buckets, t, sys.root`past
      ensures sys.Valid() && sys.Launched() && t.b == null
      ensures (sys.World(), stopped) == Runs.Stop(old(sys.World()), t.id)
    {
      stopped := UnlinkAndRecord(t);
    }

    method UnlinkAndRecord(t: Timer) returns (stopped: bool)
      requires sys.Valid() && sys.Launched() && Spec.HomeOk(sys.wheel)
      requires sys.Known(t)
      modifies sys`wheel, sys.buckets, t, sys.root`past
      ensures sys.Valid() && sys.Launched() && t.b == null
      ensures stopped <==> t.id in old(sys.wheel).home
      ensures !stopped ==> sys.World() == old(sys.World())
      ensures stopped ==>
        && Spec.ValidLoc(old(sys.wheel), old(sys.wheel).home[t.id])
        && sys.wheel == Spec.Detach(old(sys.wheel), old(sys.wheel).home[t.id], t.id)
        && sys.root.past == old(sys.root.past).(stopped := old(sys.root.past).stopped + {t.id})
    {
      if t.b != null {
        sys.Note(sys.root.past.(stopped := sys.root.past.stopped + {t.id}));
      }
      stopped := Unlink(t);
    }

    /** Removes the timer from the bucket it points to until it points to none. */
    method Unlink(t: Timer) returns (stopped: bool)
      requires sys.Valid() && Spec.HomeOk(sys.wheel)
      requires sys.Known(t)
      modifies sys`wheel, sys.buckets, t
      ensures sys.Valid() && t.b == null
      ensures stopped <==> t.id in old(sys.wheel).home
      ensures !stopped ==> sys.wheel == old(sys.wheel)
      ensures stopped ==>
        && Spec.ValidLoc(old(sys.wheel), old(sys.wheel).home[t.id])
        && sys.wheel == Spec.Detach(old(sys.wheel), old(sys.wheel).home[t.id], t.id)
    {
      stopped := false;
      var b := t.b;
      while b != null
        invariant b == t.b && sys.Valid() && sys.buckets == old(sys.buckets)
        invariant b == old(t.b) || b == null
        invariant b == old(t.b) ==> sys.wheel == old(sys.wheel)
        invariant stopped <==> b != old(t.b)
        invariant stopped ==>
          && t.id in old(sys.wheel).home
          && Spec.ValidLoc(old(sys.wheel), old(sys.wheel).home[t.id])
          && sys.wheel == Spec.Detach(old(sys.wheel), old(sys.wheel).home[t.id], t.id)
        decreases b != null
      {
        stopped := Remove(b, t);
        b := t.b;
      }
    }

    /** bucket.Remove: false when the timer has meanwhile moved to another bucket. */
    method Remove(b: Bucket, t: Timer) returns (removed: bool)
      requires sys.Valid() && Spec.HomeOk(sys.wheel)
      requires sys.Known(t)
      modifies sys`wheel, b`timers, t
      ensures sys.Valid() && removed == (old(t.b) == b)
      ensures !removed ==> sys.wheel == old(sys.wheel) && t.b == old(t.b)
      ensures removed ==>
        && t.b == null && old(t.id in sys.wheel.home && sys.wheel.home[t.id] == b.loc)
        && Spec.ValidLoc(old(sys.wheel), b.loc)
        && sys.wheel == Spec.Detach(old(sys.wheel), b.loc, t.id)
    {
      if t.b != b {
        return false;
      }
      sys.Detach(t, b);
      removed := true;
    }

    /** One turn of the flush loop: out of bucket b, then back in at a lower level or run. */
    method Reinsert(t: Timer, b: Bucket)
      requires sys.Valid() && sys.Launched() && sys.levels[0] == this
      requires Spec.Shape(sys.wheel) && Spec.HomeOk(sys.wheel)
      requires sys.Known(t) && t.b == b && Spec.ValidLoc(sys.wheel, b.loc)
      modifies sys, sys.levels, sys.buckets, t, sys.queue, sys.queue.pq, sys.queue.repr, sys.root
      ensures sys.Valid() && sys.Launched() && Grown(sys) && QueueGrown(sys)
      ensures sys.timers == old(sys.timers)
      ensures sys.World() == Runs.Reinsert(old(sys.World()), b.loc, t.View())
    {
      assert b in sys.buckets;
      TakeOut(t, b);
      AddOrRun(t);
    }

    lemma KeepsShape(w: Spec.Wheel, l: Spec.Loc, id: nat)
      requires Spec.Shape(w) && Spec.ValidLoc(w, l)
      ensures Spec.Shape(Spec.Detach(w, l, id))
    {
      Spec.DetachFrame(w, l, id);
    }

    method TakeOut(t: Timer, b: Bucket)
      requires sys.Valid() && sys.Launched()
      requires Spec.Shape(sys.wheel) && Spec.HomeOk(sys.wheel)
      requires sys.Known(t) && t.b == b && Spec.ValidLoc(sys.wheel, b.loc)
      modifies sys`wheel, b`timers, t, sys.root`past
      ensures sys.Valid() && sys.Launched() && Spec.Shape(sys.wheel)
      ensures sys.World() == Runs.TakenOut(old(sys.World()), b.loc, t.View())
      ensures t.b == null
    {
      KeepsShape(sys.wheel, b.loc, t.id);
      assert b in sys.buckets;
      sys.Note(Runs.TakenOut(sys.World(), b.loc, t.View()));
      sys.Detach(t, b);
    }

    /** One turn of the flush loop, seen from the whole flush: what is left to do still ends in
        `end`, and the bucket has lost just its first timer. */
    method FlushOne(t: Timer, b: Bucket, ghost end: Runs.World)
      requires sys.Valid() && sys.Launched() && sys.levels[0] == this && b in sys.buckets
      requires FlushLeads(sys, b, end) && b.timers != [] && t == b.timers[0]
      modifies sys, sys.levels, sys.buckets, t, sys.queue, sys.queue.pq, sys.queue.repr, sys.root
      ensures sys.Valid() && sys.Launched() && QueueGrown(sys)
      ensures FlushLeads(sys, b, end) && b.timers == old(b.timers)[1..]
      ensures sys.levels == old(sys.levels) && sys.buckets == old(sys.buckets) && sys.timers == old(sys.timers)
    {
      ghost var before := b.timers;
      FlushStep(sys, b, end);
      Reinsert(t, b);
      SameTimers(sys, b, before[1..]);
    }

    /** bucket.Flush: re-adds or runs every timer of b, then marks b idle. */
    method Flush(b: Bucket, ghost end: Runs.World)
      requires sys.Valid() && sys.Launched() && sys.levels[0] == this && b in sys.buckets
      requires FlushLeads(sys, b, end)
      modifies sys, sys.levels, sys.buckets, b.timers, sys.queue, sys.queue.pq, sys.queue.repr, sys.root
      ensures sys.Valid() && sys.Launched() && QueueGrown(sys)
      ensures sys.levels == old(sys.levels) && sys.buckets == old(sys.buckets) && sys.timers == old(sys.timers)
      ensures Spec.ValidLoc(end.wheel, b.loc) && sys.World() == Runs.Disarmed(end, b.loc)
    {
      FlushTimers(b, end);
      MarkIdle(b, end);
    }

    /** b.SetExpiration(-1) at the end of a flush. */
    method MarkIdle(b: Bucket, ghost end: Runs.World)
      requires sys.Valid() && b in sys.buckets && sys.World() == end && Spec.ValidLoc(end.wheel, b.loc)
      modifies sys`wheel, b`expiration
      ensures sys.Valid() && sys.World() == Runs.Disarmed(end, b.loc)
    {
      sys.Disarm(b);
    }

    method FlushTimers(b: Bucket, ghost end: Runs.World)
      requires sys.Valid() && sys.Launched() && sys.levels[0] == this && b in sys.buckets
      requires FlushLeads(sys, b, end)
      modifies sys, sys.levels, sys.buckets, b.timers, sys.queue, sys.queue.pq, sys.queue.repr, sys.root
      ensures sys.Valid() && sys.Launched() && QueueGrown(sys)
      ensures sys.levels == old(sys.levels) && sys.buckets == old(sys.buckets) && sys.timers == old(sys.timers)
      ensures sys.World() == end && b in sys.buckets && b.timers == []
      ensures Spec.ValidLoc(end.wheel, b.loc)
    {
      var ts := b.timers;
      var i := 0;
      while i < |ts|
        invariant 0 <= i <= |ts| && b.timers == ts[i..]
        invariant sys.Valid() && sys.Launched()
        invariant sys.levels == old(sys.levels) && sys.buckets == old(sys.buckets)
        invariant sys.timers == old(sys.timers) && QueueGrown(sys)
        invariant FlushLeads(sys, b, end)
      {
        FlushOne(ts[i], b, end);
        i := i + 1;
      }
      FlushEnds(sys, b, end);
    }

    /** The dispatch goroutine's turn at time `now`: take a due bucket from the queue, advance the
        clocks to it and flush it. */
    method Poll(now: int) returns (found: bool, ghost it: Spec.Item)
      requires sys.Valid() && sys.Launched() && sys.levels[0] == this
      requires Runs.WorldInv(sys.World(), Runs.NO_HOLE) && sys.root.past.now <= now
      modifies sys, sys.levels, sys.buckets, sys.timers.Values, sys.queue, sys.queue.pq, sys.queue.repr, sys.root
      ensures sys.Valid() && sys.Launched() && QueueGrown(sys)
      ensures sys.levels == old(sys.levels) && sys.buckets == old(sys.buckets) && sys.timers == old(sys.timers)
      ensures Runs.WorldInv(old(sys.World()).(now := now), Runs.NO_HOLE)
      ensures !found ==> sys.World() == old(sys.World()).(now := now) && Runs.Quiet(sys.World())
      ensures found ==>
        && Runs.Due(old(sys.World()).(now := now), it)
        && sys.World() == Runs.Dispatch(old(sys.World()).(now := now), it)
    {
      Runs.LaterInv(sys.World(), now);
      found, it := PollLeads(now);
      assert Opened(old(sys.World()).(now := now));
    }

    method PollLeads(now: int) returns (found: bool, ghost it: Spec.Item)
      requires sys.Valid() && sys.Launched() && sys.levels[0] == this
      requires Runs.WorldInv(sys.World(), Runs.NO_HOLE) && sys.root.past.now <= now
      modifies sys, sys.levels, sys.buckets, sys.timers.Values, sys.queue, sys.queue.pq, sys.queue.repr, sys.root
      ensures sys.Valid() && sys.Launched() && QueueGrown(sys)
      ensures sys.levels == old(sys.levels) && sys.buckets == old(sys.buckets) && sys.timers == old(sys.timers)
      ensures !found ==> sys.World() == old(sys.World()).(now := now) && Runs.Quiet(sys.World())
      ensures found ==> DispatchLeads(old(sys.World()).(now := now), it, sys.World())
    {
      ghost var s := sys.World().(now := now);
      var x;
      ghost var end;
      x, end := TakeReady(now);
      found := x != null;
      if found {
        it := ItemView(x);
        DispatchBucket(x.value, s, it, end);
      } else {
        it := Spec.Item(Spec.Loc(0, 0), 0);
      }
    }

    method TakeReady(now: int) returns (x: DQ.Item?<Bucket>, ghost end: Runs.World)
      requires sys.Valid() && sys.Launched()
      requires Runs.WorldInv(sys.World(), Runs.NO_HOLE) && sys.root.past.now <= now
      modifies sys`wheel, sys.queue, sys.queue.pq, sys.queue.repr, sys.root`past
      ensures sys.Valid() && sys.Launched() && QueueGrown(sys)
      ensures x == null ==> sys.World() == old(sys.World()).(now := now) && Runs.Quiet(sys.World())
      ensures x != null ==>
        var s, it := old(sys.World()).(now := now), ItemView(x);
        && x.value in sys.buckets && DispatchLeads(s, it, end)
        && sys.World() == s.(wheel := s.wheel.(queue := s.wheel.queue - multiset{it}))
    {
      ghost var s := sys.World().(now := now);
      Runs.LaterInv(sys.World(), now);
      x := TakeAt(now);
      end := if x != null then Runs.Dispatch(s, ItemView(x)) else s;
    }

    method TakeAt(now: int) returns (x: DQ.Item?<Bucket>)
      requires sys.Valid() && sys.Launched()
      modifies sys`wheel, sys.queue, sys.queue.pq, sys.queue.repr, sys.root`past
      ensures sys.Valid() && sys.Launched() && QueueGrown(sys)
      ensures sys.root.past == old(sys.root.past).(now := now)
      ensures x == null ==> sys.wheel == old(sys.wheel) && forall it :: it in sys.wheel.queue ==> now < it.priority
      ensures x != null ==>
        && x.value in sys.buckets && ItemView(x) in old(sys.wheel.queue) && x.priority <= now
        && (forall it :: it in old(sys.wheel.queue) ==> x.priority <= it.priority)
        && sys.wheel == old(sys.wheel).(queue := old(sys.wheel).queue - multiset{ItemView(x)})
    {
      sys.Note(sys.root.past.(now := now));
      x := sys.TakeDue(now);
    }

    /** The bucket of item `it`, just taken from the queue in state s, is flushed at its time. */
    method DispatchBucket(b: Bucket, ghost s: Runs.World, ghost it: Spec.Item, ghost end: Runs.World)
      requires sys.Valid() && sys.Launched() && sys.levels[0] == this && b in sys.buckets
      requires DispatchLeads(s, it, end) && b.loc == it.loc
      requires sys.World() == s.(wheel := s.wheel.(queue := s.wheel.queue - multiset{it}))
      modifies sys, sys.levels, sys.buckets, b.timers, sys.queue, sys.queue.pq, sys.queue.repr, sys.root
      ensures sys.Valid() && sys.Launched() && QueueGrown(sys)
      ensures sys.levels == old(sys.levels) && sys.buckets == old(sys.buckets) && sys.timers == old(sys.timers)
      ensures sys.World() == end
    {
      ghost var flushed := AdvanceTo(b, s, it, end);
      Flush(b, flushed);
    }

    method AdvanceTo(b: Bucket, ghost s: Runs.World, ghost it: Spec.Item, ghost end: Runs.World)
      returns (ghost flushed: Runs.World)
      requires sys.Valid() && sys.Launched() && sys.levels[0] == this && b in sys.buckets
      requires DispatchLeads(s, it, end) && b.loc == it.loc
      requires sys.World() == s.(wheel := s.wheel.(queue := s.wheel.queue - multiset{it}))
      modifies sys`wheel, sys.levels
      ensures sys.Valid() && sys.Launched()
      ensures sys.levels == old(sys.levels) && sys.buckets == old(sys.buckets) && sys.timers == old(sys.timers)
      ensures FlushLeads(sys, b, flushed)
      ensures Spec.ValidLoc(flushed.wheel, b.loc) && end == Runs.Disarmed(flushed, b.loc)
    {
      flushed := DispatchFlush(s, it, end);
      ViewsShown(sys, b);
      AdvanceClock(b.expiration, 0);
      ViewsShown(sys, b);
    }
  }

  lemma NextIdFree(s: Runs.World)
    requires Runs.WorldInv(s, Runs.NO_HOLE)
    ensures Spec.Shape(s.wheel) && |s.issued| + 1 !in s.wheel.home
  {
    assert !Runs.Issued(s, |s.issued| + 1);
  }

  ghost function Views(ts: seq<Timer>): (vs: seq<Spec.Timer>)
    ensures |vs| == |ts| && forall j :: 0 <= j < |ts| ==> vs[j] == ts[j].View()
  {
    if ts == [] then [] else [ts[0].View()] + Views(ts[1..])
  }

  /** Dispatching item `it` in state s leads to `end`; said of opened states, as below. */
  ghost predicate DispatchLeads(s: Runs.World, it: Spec.Item, end: Runs.World) {
    forall x {:trigger Opened(x)} :: Opened(x) && x == s ==>
      Runs.WorldInv(x, Runs.NO_HOLE) && Runs.Due(x, it) && Runs.Dispatch(x, it) == end
  }

  /** A dispatch is a flush of the due bucket after the clocks have moved. */
  lemma DispatchFlush(s: Runs.World, it: Spec.Item, end: Runs.World) returns (flushed: Runs.World)
    requires DispatchLeads(s, it, end)
    ensures Spec.Shape(s.wheel) && Spec.ValidLoc(flushed.wheel, it.loc)
    ensures var s1 := Runs.Popped(s, it);
      LeadsTo(s1, it.loc, Spec.BucketAt(s1.wheel, it.loc).timers, flushed)
    ensures end == Runs.Disarmed(flushed, it.loc)
  {
    assert Opened(s);
    Runs.DispatchStart(s, it);
    var s1 := Runs.Popped(s, it);
    Runs.CascadeInv(s1, it.loc, Spec.BucketAt(s1.wheel, it.loc).timers);
    flushed := Runs.Cascade(s1, it.loc, Spec.BucketAt(s1.wheel, it.loc).timers);
  }

  lemma ViewsShown(sys: Hierarchy, b: Bucket)
    requires sys.Valid() && b in sys.buckets
    ensures Views(b.timers) == Spec.BucketAt(sys.wheel, b.loc).timers
    ensures b.expiration == Spec.BucketAt(sys.wheel, b.loc).expiration
  {
  }

  /** The flush of bucket b is under way, and finishing it leads to `end`. */
  ghost predicate FlushLeads(sys: Hierarchy, b: Bucket, end: Runs.World)
    reads sys, sys.root, b
  {
    LeadsTo(sys.World(), b.loc, Views(b.timers), end)
  }

  /** In state s the flush of bucket l has timers ts left, and finishing it leads to `end`. Said of
      opened states, so that only the lemmas that open s work with what the invariant says. */
  ghost predicate LeadsTo(s: Runs.World, l: Spec.Loc, ts: seq<Spec.Timer>, end: Runs.World) {
    forall x {:trigger Opened(x)} :: Opened(x) && x == s ==>
      Runs.WorldInv(x, Runs.Hole(l)) && Runs.Flushing(x, l, ts) && Runs.Cascade(x, l, ts) == end
  }

  ghost predicate Opened(s: Runs.World) {
    true
  }

  /** One turn of the flush in state s. */
  lemma LeadsOn(s: Runs.World, l: Spec.Loc, ts: seq<Spec.Timer>, end: Runs.World)
    requires LeadsTo(s, l, ts, end) && ts != []
    ensures Spec.Shape(s.wheel) && Spec.HomeOk(s.wheel) && Spec.ValidLoc(s.wheel, l)
    ensures var s' := Runs.Reinsert(s, l, ts[0]);
      && LeadsTo(s', l, ts[1..], end)
      && Spec.BucketAt(s'.wheel, l).timers == ts[1..]
      && |s'.wheel.levels| == |s.wheel.levels|
  {
    assert Opened(s);
    Runs.ReinsertInv(s, l, ts);
  }

  lemma FlushStep(sys: Hierarchy, b: Bucket, end: Runs.World)
    requires sys.Valid() && b in sys.buckets && FlushLeads(sys, b, end) && b.timers != []
    ensures Spec.Shape(sys.wheel) && Spec.HomeOk(sys.wheel) && Spec.ValidLoc(sys.wheel, b.loc)
    ensures sys.Known(b.timers[0]) && b.timers[0].b == b
    ensures var s, ts := Runs.Reinsert(sys.World(), b.loc, b.timers[0].View()), b.timers[1..];
      && LeadsTo(s, b.loc, Views(ts), end)
      && Spec.BucketAt(s.wheel, b.loc).timers == Views(ts)
      && |s.wheel.levels| == |sys.wheel.levels|
    ensures forall j :: 0 <= j < |b.timers[1..]| ==> sys.Known(b.timers[1..][j])
  {
    LeadsOn(sys.World(), b.loc, Views(b.timers), end);
    assert Views(b.timers)[1..] == Views(b.timers[1..]);
  }

  lemma FlushEnds(sys: Hierarchy, b: Bucket, end: Runs.World)
    requires FlushLeads(sys, b, end) && b.timers == []
    ensures sys.World() == end && Spec.ValidLoc(end.wheel, b.loc)
  {
    assert Opened(sys.World());
  }

  /** A bucket showing the views of `ts` holds just these objects, when their ids name them. */
  lemma SameTimers(sys: Hierarchy, b: Bucket, ts: seq<Timer>)
    requires sys.Valid() && b in sys.buckets
    requires Spec.BucketAt(sys.wheel, b.loc).timers == Views(ts)
    requires forall j :: 0 <= j < |ts| ==> sys.Known(ts[j])
    ensures b.timers == ts
  {
    forall j | 0 <= j < |ts|
      ensures b.timers[j] == ts[j]
    {
      assert b.timers[j].View() == ts[j].View();
    }
  }

  /** NewTimingWheel: one level and an empty queue. */
  method NewTimingWheel(tick: int, wheelSize: nat, start: int) returns (tw: TimingWheel)
    requires tick > 0 && wheelSize >= 2 && start >= 0
    ensures fresh(tw) && fresh(tw.sys) && tw.sys.Valid() && tw.sys.Launched()
    ensures tw.sys.levels == [tw] && tw.sys.World() == Runs.Init(tick, wheelSize, start)
    ensures tw.sys.timers == map[] && fresh(tw.sys.root) && fresh(tw.sys.buckets)
    ensures fresh(tw.sys.queue) && fresh(tw.sys.queue.pq) && fresh(tw.sys.queue.repr)
    ensures tw.tick == tick && tw.wheelSize == wheelSize && tw.currentTime == Truncate(start, tick)
    ensures tw.interval == tick * wheelSize && |tw.buckets| == wheelSize && tw.overflowWheel == null
    ensures forall b :: b in tw.buckets ==> b.expiration == -1 && b.timers == []
  {
    var sys := new Hierarchy(wheelSize);
    tw := new TimingWheel(tick, wheelSize, start, sys, 0);
    sys.Install(tw, Runs.Init(tick, wheelSize, start));
  }

  /** The hierarchy only grows: at the top, by new wheels with new buckets. */
  twostate predicate Grown(sys: Hierarchy)
    reads sys
  {
    && old(sys.levels) <= sys.levels
    && (forall i :: |old(sys.levels)| <= i < |sys.levels| ==> fresh(sys.levels[i]))
    && old(sys.buckets) <= sys.buckets && (forall b :: b in sys.buckets ==> b in old(sys.buckets) || fresh(b))
    && (|sys.levels| == |old(sys.levels)| ==> sys.buckets == old(sys.buckets))
  }

  /** The queue's objects are old ones or new ones. */
  twostate predicate QueueGrown(sys: Hierarchy)
    reads sys.queue
  {
    && (forall x :: x in sys.queue.repr ==> x in old(sys.queue.repr) || fresh(x))
    && (sys.queue.pq == old(sys.queue.pq) || fresh(sys.queue.pq))
  }
}
