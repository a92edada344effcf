/** Runs of the timing wheel: AfterFunc, Timer.Stop and the dispatch of due buckets, in any order,
    with the time a non-decreasing input. The history (issued, fired, stopped, hops) records what
    the callers and the tasks see. */
module TimingWheelRuns {
  import opened Wrappers
  import opened Arithmetic
  import opened TimingWheelSpec

  datatype Firing = Firing(timer: Timer, at: int)

  /** issued[n - 1] is the expiration of timer n; hops[n] counts the flushes n came out of. */
  datatype World = World(wheel: Wheel, issued: seq<int>, fired: seq<Firing>, stopped: set<nat>,
                         hops: map<nat, nat>, now: int)

  /** No bucket is being flushed. */
  const NO_HOLE: Option<Loc> := None

  /** Bucket l is being flushed. */
  function Hole(l: Loc): Option<Loc> {
    Some(l)
  }

  // ---------------------------------------------------------------- steps

  function AddOrRun(s: World, t: Timer): World
    requires Shape(s.wheel)
  {
    var (w', ok) := Add(s.wheel, 0, t);
    s.(wheel := w', fired := if ok then s.fired else s.fired + [Firing(t, s.now)])
  }

  function AfterFunc(s: World, e: int): World
    requires Shape(s.wheel)
  {
    var id := |s.issued| + 1;
    AddOrRun(s.(issued := s.issued + [e], hops := s.hops[id := 0]), Timer(id, e))
  }

  function Stop(s: World, id: nat): (World, bool)
    requires Inv(s.wheel, None)
  {
    if id in s.wheel.home then
      DetachInv(s.wheel, None, id);
      (s.(wheel := Detach(s.wheel, s.wheel.home[id], id), stopped := s.stopped + {id}), true)
    else (s, false)
  }

  /** One turn of the flush loop: take t out of bucket l, then re-add or run it. */
  function Reinsert(s: World, l: Loc, t: Timer): World
    requires Shape(s.wheel) && ValidLoc(s.wheel, l)
  {
    DetachFrame(s.wheel, l, t.id);
    AddOrRun(TakenOut(s, l, t), t)
  }

  /** The state between taking t out of bucket l and re-adding it. */
  function TakenOut(s: World, l: Loc, t: Timer): World
    requires ValidLoc(s.wheel, l)
  {
    var hops := if t.id in s.hops then s.hops[t.id] + 1 else 1;
    s.(wheel := Detach(s.wheel, l, t.id), hops := s.hops[t.id := hops])
  }

  /** The flush loop over the timers `ts` still in bucket l. */
  function Cascade(s: World, l: Loc, ts: seq<Timer>): World
    requires WorldInv(s, Some(l)) && Flushing(s, l, ts)
    decreases |ts|
  {
    if ts == [] then s
    else
      ReinsertInv(s, l, ts);
      Cascade(Reinsert(s, l, ts[0]), l, ts[1..])
  }

  /** The bucket of item `it` is due: take the item, advance the clocks, flush the bucket. */
  function Dispatch(s: World, it: Item): World
    requires WorldInv(s, None) && Due(s, it)
  {
    DispatchStart(s, it);
    var s1 := Popped(s, it);
    var s2 := Cascade(s1, it.loc, BucketAt(s1.wheel, it.loc).timers);
    CascadeInv(s1, it.loc, BucketAt(s1.wheel, it.loc).timers);
    Disarmed(s2, it.loc)
  }

  function Disarmed(s: World, l: Loc): World
    requires ValidLoc(s.wheel, l)
  {
    s.(wheel := WithBucket(s.wheel, l, BucketAt(s.wheel, l).(expiration := IDLE)))
  }

  function Popped(s: World, it: Item): World
    requires Shape(s.wheel)
  {
    var w := s.wheel.(queue := s.wheel.queue - multiset{it});
    s.(wheel := Advance(w, 0, BucketAt(w, it.loc).expiration))
  }

  /** PeekAndShift returns `it`: it is a least item and its time has come. */
  ghost predicate Due(s: World, it: Item) {
    && it in s.wheel.queue
    && it.priority <= s.now
    && forall x :: x in s.wheel.queue ==> it.priority <= x.priority
  }

  // ---------------------------------------------------------------- invariant

  ghost predicate Fired(s: World, id: nat) {
    exists i :: 0 <= i < |s.fired| && s.fired[i].timer.id == id
  }

  ghost predicate Issued(s: World, id: nat) {
    1 <= id <= |s.issued|
  }

  ghost predicate Genuine(s: World, t: Timer) {
    Issued(s, t.id) && s.issued[t.id - 1] == t.expiration
  }

  /** Every issued timer is in exactly one place: pending in a bucket, stopped, fired, or in the
      hands of the flush loop (`flight`). */
  ghost predicate Conserved(s: World, flight: set<nat>) {
    && (forall id :: Issued(s, id) <==> id in s.wheel.home || id in s.stopped || Fired(s, id) || id in flight)
    && (forall id :: id in s.wheel.home ==> id !in s.stopped && !Fired(s, id) && id !in flight)
    && (forall id :: id in s.stopped ==> !Fired(s, id) && id !in flight)
    && (forall id :: id in flight ==> !Fired(s, id))
  }

  ghost predicate AllGenuine(s: World) {
    && (forall l, j :: 0 <= j < |BucketAt(s.wheel, l).timers| ==> Genuine(s, BucketAt(s.wheel, l).timers[j]))
    && (forall i :: 0 <= i < |s.fired| ==> Genuine(s, s.fired[i].timer))
  }

  /** A task starts at most once, and not before the tick its expiration falls in. */
  ghost predicate FiringsOk(s: World)
    requires Shape(s.wheel)
  {
    && (forall i, j :: 0 <= i < j < |s.fired| ==> s.fired[i].timer.id != s.fired[j].timer.id)
    && (forall i :: 0 <= i < |s.fired| ==>
          Truncate(s.fired[i].timer.expiration, s.wheel.levels[0].tick) <= s.fired[i].at <= s.now)
  }

  /** The flushes behind a timer, plus the levels below it, stay below the number of levels. */
  ghost predicate HopsOk(s: World) {
    && (forall id :: id in s.wheel.home ==>
          id in s.hops && s.hops[id] + s.wheel.home[id].level < |s.wheel.levels|)
    && (forall id :: id in s.hops ==> s.hops[id] <= |s.wheel.levels|)
  }

  ghost predicate Carried(s: World, flight: set<nat>, hole: Option<Loc>) {
    && Inv(s.wheel, hole)
    && s.wheel.levels[0].clock <= s.now
    && Conserved(s, flight)
    && AllGenuine(s)
    && FiringsOk(s)
    && HopsOk(s)
  }

  ghost predicate WorldInv(s: World, hole: Option<Loc>) {
    Carried(s, {}, hole)
  }

  ghost predicate Flushing(s: World, l: Loc, ts: seq<Timer>)
    requires Shape(s.wheel)
  {
    && ValidLoc(s.wheel, l)
    && BucketAt(s.wheel, l).timers == ts
    && BucketAt(s.wheel, l).expiration == s.wheel.levels[0].clock
  }

  /** The finest level's tick and clock, and the time. */
  ghost predicate SameBase(s: World, s': World)
    requires Shape(s.wheel) && Shape(s'.wheel)
  {
    && s'.wheel.levels[0].tick == s.wheel.levels[0].tick
    && s'.wheel.levels[0].clock == s.wheel.levels[0].clock
    && s'.now == s.now
  }

  // ---------------------------------------------------------------- add or run

  lemma AddOrRunInv(s: World, hole: Option<Loc>, t: Timer)
    requires Carried(s, {t.id}, hole) && Genuine(s, t)
    requires hole.Some? ==> Below(s.wheel, hole.value, t)
    requires t.id in s.hops
    requires s.hops[t.id] + (if hole.Some? then hole.value.level - 1 else 0) < |s.wheel.levels|
    requires hole.None? ==> s.hops[t.id] == 0
    ensures WorldInv(AddOrRun(s, t), hole)
    ensures SameBase(s, AddOrRun(s, t))
    ensures hole.Some? ==> |AddOrRun(s, t).wheel.levels| == |s.wheel.levels|
    ensures hole.Some? ==>
      && BucketAt(AddOrRun(s, t).wheel, hole.value) == BucketAt(s.wheel, hole.value)
      && ValidLoc(AddOrRun(s, t).wheel, hole.value)
  {
    AddInv(s.wheel, hole, 0, t);
    var (w', ok) := Add(s.wheel, 0, t);
    var s' := AddOrRun(s, t);
    if ok {
      AddedWorld(s, s', hole, t);
    } else {
      FiredWorld(s, s', hole, t);
    }
  }

  lemma AddedWorld(s: World, s': World, hole: Option<Loc>, t: Timer)
    requires Carried(s, {t.id}, hole) && Genuine(s, t)
    requires s' == s.(wheel := s'.wheel)
    requires Inv(s'.wheel, hole) && t.id in s'.wheel.home
    requires InsertedAt(s.wheel, s'.wheel, s'.wheel.home[t.id], t)
    requires t.id in s.hops && s.hops[t.id] + s'.wheel.home[t.id].level < |s'.wheel.levels|
    ensures WorldInv(s', hole)
  {
    var l := s'.wheel.home[t.id];
    assert forall id :: Fired(s', id) <==> Fired(s, id);
    assert forall id :: Issued(s', id) <==> Issued(s, id);
    assert Conserved(s', {});
    AddedGenuine(s, s', l, t);
    assert HopsOk(s');
    assert FiringsOk(s');
  }

  lemma AddedGenuine(s: World, s': World, l: Loc, t: Timer)
    requires AllGenuine(s) && Genuine(s, t)
    requires s' == s.(wheel := s'.wheel) && InsertedAt(s.wheel, s'.wheel, l, t)
    ensures AllGenuine(s')
  {
    assert forall x: Timer :: Genuine(s, x) ==> Genuine(s', x);
    forall m, j | 0 <= j < |BucketAt(s'.wheel, m).timers|
      ensures Genuine(s', BucketAt(s'.wheel, m).timers[j])
    {
      if m == l && j == |BucketAt(s.wheel, l).timers| {
      } else {
        assert Genuine(s, BucketAt(s.wheel, m).timers[j]);
      }
    }
  }

  lemma FiredMore(s: World, s': World, t: Timer, id: nat)
    requires s'.fired == s.fired + [Firing(t, s.now)]
    ensures Fired(s', id) <==> Fired(s, id) || id == t.id
  {
    if Fired(s, id) {
      var i :| 0 <= i < |s.fired| && s.fired[i].timer.id == id;
      assert s'.fired[i].timer.id == id;
    }
    assert s'.fired[|s.fired|].timer == t;
  }

  lemma FiredWorld(s: World, s': World, hole: Option<Loc>, t: Timer)
    requires Carried(s, {t.id}, hole) && Genuine(s, t)
    requires s' == s.(fired := s.fired + [Firing(t, s.now)])
    requires t.expiration < s.wheel.levels[0].clock + s.wheel.levels[0].tick
    ensures WorldInv(s', hole)
  {
    var n := |s.fired|;
    var c, tick := s.wheel.levels[0].clock, s.wheel.levels[0].tick;
    if c < Truncate(t.expiration, tick) {
      MultiplesApart(c, Truncate(t.expiration, tick), tick);
      assert false;
    }
    forall id
      ensures Fired(s', id) <==> Fired(s, id) || id == t.id
    {
      FiredMore(s, s', t, id);
    }
    assert forall id :: Issued(s', id) <==> Issued(s, id);
    assert Conserved(s', {});
    forall i | 0 <= i < n
      ensures s'.fired[i].timer.id != t.id
    {
      assert Fired(s, s.fired[i].timer.id);
    }
    assert forall i :: 0 <= i < n ==> Genuine(s, s.fired[i].timer);
    assert forall m, j :: 0 <= j < |BucketAt(s'.wheel, m).timers| ==> Genuine(s, BucketAt(s.wheel, m).timers[j]);
  }

  // ---------------------------------------------------------------- AfterFunc and Stop

  lemma AfterFuncInv(s: World, e: int)
    requires WorldInv(s, None)
    ensures WorldInv(AfterFunc(s, e), None) && SameBase(s, AfterFunc(s, e))
  {
    IssueInv(s, e);
    var id := |s.issued| + 1;
    AddOrRunInv(s.(issued := s.issued + [e], hops := s.hops[id := 0]), None, Timer(id, e));
  }

  /** A new timer's id is fresh; the timer is in flight until it is added or run. */
  lemma IssueInv(s: World, e: int)
    requires WorldInv(s, None)
    ensures var id := |s.issued| + 1;
      var s1 := s.(issued := s.issued + [e], hops := s.hops[id := 0]);
      Carried(s1, {id}, None) && Genuine(s1, Timer(id, e))
  {
    var id := |s.issued| + 1;
    var s1 := s.(issued := s.issued + [e], hops := s.hops[id := 0]);
    assert forall x :: Issued(s1, x) <==> Issued(s, x) || x == id;
    assert forall x :: Fired(s1, x) <==> Fired(s, x);
    assert !Issued(s, id);
    assert Conserved(s1, {id});
    assert forall t: Timer :: Genuine(s, t) ==> Genuine(s1, t);
    assert AllGenuine(s1);
    assert HopsOk(s1);
  }

  lemma StopInv(s: World, id: nat)
    requires WorldInv(s, None)
    ensures WorldInv(Stop(s, id).0, None) && SameBase(s, Stop(s, id).0)
    ensures Stop(s, id).1 <==> id in s.wheel.home
  {
    if id in s.wheel.home {
      DetachInv(s.wheel, None, id);
      var s' := Stop(s, id).0;
      assert forall x :: Fired(s', x) <==> Fired(s, x);
      assert forall x :: Issued(s', x) <==> Issued(s, x);
      assert Conserved(s', {});
      DetachGenuine(s, s', id);
    }
  }

  lemma DetachGenuine(s: World, s': World, id: nat)
    requires Carried(s, {}, None) || exists h :: Carried(s, {}, Some(h))
    requires id in s.wheel.home && DetachedAt(s.wheel, s'.wheel, s.wheel.home[id], id)
    requires s'.issued == s.issued && s'.fired == s.fired
    ensures AllGenuine(s')
  {
    var l := s.wheel.home[id];
    var ts := BucketAt(s.wheel, l).timers;
    assert PointHere(s.wheel.home, l, ts);
    RemoveIdLemma(ts, id);
    assert forall t: Timer :: Genuine(s, t) ==> Genuine(s', t);
    forall m, j | 0 <= j < |BucketAt(s'.wheel, m).timers|
      ensures Genuine(s', BucketAt(s'.wheel, m).timers[j])
    {
      var t := BucketAt(s'.wheel, m).timers[j];
      if m == l {
        assert t in ts;
        var i :| 0 <= i < |ts| && ts[i] == t;
        assert Genuine(s, BucketAt(s.wheel, l).timers[i]);
      } else {
        assert Genuine(s, BucketAt(s.wheel, m).timers[j]);
      }
    }
  }

  // ---------------------------------------------------------------- flush

  /** One turn of the flush: the timer runs, or lands strictly below the bucket being flushed. */
  lemma ReinsertInv(s: World, l: Loc, ts: seq<Timer>)
    requires WorldInv(s, Some(l)) && Flushing(s, l, ts) && ts != []
    ensures WorldInv(Reinsert(s, l, ts[0]), Some(l))
    ensures Flushing(Reinsert(s, l, ts[0]), l, ts[1..])
    ensures SameBase(s, Reinsert(s, l, ts[0]))
    ensures |Reinsert(s, l, ts[0]).wheel.levels| == |s.wheel.levels|
  {
    TakenOutInv(s, l, ts);
    AddOrRunInv(TakenOut(s, l, ts[0]), Some(l), ts[0]);
  }

  lemma TakenOutInv(s: World, l: Loc, ts: seq<Timer>)
    requires WorldInv(s, Some(l)) && Flushing(s, l, ts) && ts != []
    ensures var s1 := TakenOut(s, l, ts[0]);
      && Carried(s1, {ts[0].id}, Some(l)) && Genuine(s1, ts[0])
      && Flushing(s1, l, ts[1..]) && Below(s1.wheel, l, ts[0])
      && ts[0].id in s1.hops && s1.hops[ts[0].id] + l.level - 1 < |s1.wheel.levels|
      && SameBase(s, s1)
  {
    var t := ts[0];
    var w := s.wheel;
    assert PointHere(w.home, l, ts);
    assert w.home[t.id] == l;
    DetachInv(w, Some(l), t.id);
    var s1 := TakenOut(s, l, t);
    TakenOutConserved(s, l, t);
    assert Genuine(s, BucketAt(w, l).timers[0]);
    DetachGenuine(s, s1, t.id);
    assert BucketOk(w.levels[l.level], w.size, l.slot, BucketAt(w, l));
    TakenOutHops(s, l, t);
  }

  lemma TakenOutHops(s: World, l: Loc, t: Timer)
    requires ValidLoc(s.wheel, l) && HopsOk(s) && t.id in s.wheel.home && s.wheel.home[t.id] == l
    ensures var s1 := TakenOut(s, l, t);
      HopsOk(s1) && t.id in s1.hops && s1.hops[t.id] + l.level - 1 < |s1.wheel.levels|
  {
  }

  lemma TakenOutConserved(s: World, l: Loc, t: Timer)
    requires ValidLoc(s.wheel, l) && Conserved(s, {}) && t.id in s.wheel.home
    ensures Conserved(TakenOut(s, l, t), {t.id})
  {
    var s1 := TakenOut(s, l, t);
    assert forall x :: Fired(s1, x) <==> Fired(s, x);
    assert forall x :: Issued(s1, x) <==> Issued(s, x);
  }

  lemma {:induction false} CascadeInv(s: World, l: Loc, ts: seq<Timer>)
    requires WorldInv(s, Some(l)) && Flushing(s, l, ts)
    ensures WorldInv(Cascade(s, l, ts), Some(l))
    ensures Flushing(Cascade(s, l, ts), l, [])
    ensures SameBase(s, Cascade(s, l, ts))
    decreases |ts|
  {
    if ts != [] {
      ReinsertInv(s, l, ts);
      CascadeInv(Reinsert(s, l, ts[0]), l, ts[1..]);
    }
  }

  /** Taking the due item out leaves its bucket as the one armed bucket not queued, and no armed
      bucket earlier than it. */
  lemma TakeItem(s: World, it: Item)
    requires WorldInv(s, None) && Due(s, it)
    ensures ValidLoc(s.wheel, it.loc) && BucketAt(s.wheel, it.loc).expiration == it.priority != IDLE
    ensures var w := s.wheel.(queue := s.wheel.queue - multiset{it});
      Inv(w, Some(it.loc)) && Earliest(w, it.priority) && |w.queue| == |s.wheel.queue| - 1
  {
    var w := s.wheel.(queue := s.wheel.queue - multiset{it});
    ShapeKept(s.wheel, w);
    assert forall l :: BucketAt(w, l) == BucketAt(s.wheel, l);
    assert Armed(s.wheel, it);
    forall x
      ensures w.queue[x] == if Armed(w, x) && Some(it.loc) != Some(x.loc) then 1 else 0
    {
      assert Armed(w, x) <==> Armed(s.wheel, x);
    }
    forall l | BucketAt(w, l).expiration != IDLE
      ensures it.priority <= BucketAt(w, l).expiration
    {
      assert Armed(s.wheel, Item(l, BucketAt(w, l).expiration));
      assert Item(l, BucketAt(w, l).expiration) in s.wheel.queue;
    }
    assert HomeOk(w);
  }

  lemma DispatchStart(s: World, it: Item)
    requires WorldInv(s, None) && Due(s, it)
    ensures ValidLoc(s.wheel, it.loc)
    ensures var s1 := Popped(s, it);
      WorldInv(s1, Some(it.loc)) && Flushing(s1, it.loc, BucketAt(s1.wheel, it.loc).timers)
      && s1.now == s.now && s1.wheel.levels[0].clock == it.priority
      && s1.wheel.levels[0].tick == s.wheel.levels[0].tick
  {
    TakeItem(s, it);
    AdvanceInv(s.wheel.(queue := s.wheel.queue - multiset{it}), it.loc);
    var s1 := Popped(s, it);
    assert forall x :: Fired(s1, x) <==> Fired(s, x);
    assert forall x :: Issued(s1, x) <==> Issued(s, x);
    assert forall t: Timer :: Genuine(s, t) ==> Genuine(s1, t);
    assert forall l :: BucketAt(s1.wheel, l) == BucketAt(s.wheel, l);
    assert AllGenuine(s1);
  }

  lemma DispatchInv(s: World, it: Item)
    requires WorldInv(s, None) && Due(s, it)
    ensures WorldInv(Dispatch(s, it), None)
    ensures Dispatch(s, it).now == s.now
    ensures Dispatch(s, it).wheel.levels[0].clock == it.priority
    ensures Dispatch(s, it).wheel.levels[0].tick == s.wheel.levels[0].tick
  {
    DispatchStart(s, it);
    var s1 := Popped(s, it);
    var l := it.loc;
    CascadeInv(s1, l, BucketAt(s1.wheel, l).timers);
    var s2 := Cascade(s1, l, BucketAt(s1.wheel, l).timers);
    DisarmInv(s2, l);
  }

  /** A flush that has emptied its bucket ends with marking it idle. */
  lemma DisarmInv(s: World, l: Loc)
    requires WorldInv(s, Some(l)) && ValidLoc(s.wheel, l) && BucketAt(s.wheel, l).timers == []
    ensures WorldInv(Disarmed(s, l), None) && SameBase(s, Disarmed(s, l))
  {
    var t := Disarmed(s, l);
    Disarm(s.wheel, l);
    assert t.wheel == WithBucket(s.wheel, l, Bucket(IDLE, []));
    assert forall x :: Fired(t, x) <==> Fired(s, x);
    assert forall x :: Issued(t, x) <==> Issued(s, x);
    assert forall u: Timer :: Genuine(s, u) ==> Genuine(t, u);
    assert AllGenuine(t);
  }

  lemma Disarm(w: Wheel, l: Loc)
    requires Inv(w, Some(l)) && ValidLoc(w, l) && BucketAt(w, l).timers == []
    ensures var w' := WithBucket(w, l, Bucket(IDLE, []));
      && Inv(w', None)
      && (forall m :: BucketAt(w', m).timers == BucketAt(w, m).timers)
      && |w'.levels| == |w.levels|
      && (forall k :: 0 <= k < |w.levels| ==>
            w'.levels[k].tick == w.levels[k].tick && w'.levels[k].clock == w.levels[k].clock)
  {
    var w' := WithBucket(w, l, Bucket(IDLE, []));
    ShapeKept(w, w');
    assert forall m :: m != l ==> BucketAt(w', m) == BucketAt(w, m);
    assert BucketAt(w', l) == Bucket(IDLE, []);
    assert forall m :: ValidLoc(w', m) <==> ValidLoc(w, m);
    forall m | ValidLoc(w', m)
      ensures BucketOk(w'.levels[m.level], w.size, m.slot, BucketAt(w', m))
    {
      assert BucketOk(w.levels[m.level], w.size, m.slot, BucketAt(w, m));
    }
    forall it
      ensures w'.queue[it] == if Armed(w', it) then 1 else 0
    {
      assert it.loc != l ==> (Armed(w', it) <==> Armed(w, it));
    }
    assert HomeOk(w') by {
      assert forall m :: BucketAt(w', m).timers == BucketAt(w, m).timers;
    }
  }

  // ---------------------------------------------------------------- what a flush moves

  /** Timers leave a flush of bucket l fired or strictly below level l.level; all other pending
      timers keep their bucket. */
  ghost predicate Lowered(s: World, s': World, l: Loc) {
    && (forall id :: id in s'.wheel.home ==> id in s.wheel.home)
    && (forall id :: id in s.wheel.home && s.wheel.home[id] != l ==>
          id in s'.wheel.home && s'.wheel.home[id] == s.wheel.home[id])
    && (forall id :: id in s.wheel.home && s.wheel.home[id] == l && id in s'.wheel.home ==>
          s'.wheel.home[id] == l || s'.wheel.home[id].level < l.level)
    && s'.issued == s.issued && s'.stopped == s.stopped && s.fired <= s'.fired
  }

  lemma ReinsertLowers(s: World, l: Loc, ts: seq<Timer>)
    requires WorldInv(s, Some(l)) && Flushing(s, l, ts) && ts != []
    ensures Lowered(s, Reinsert(s, l, ts[0]), l)
    ensures Potential(Reinsert(s, l, ts[0]).wheel) < Potential(s.wheel)
  {
    var t := ts[0];
    TakenOutInv(s, l, ts);
    assert PointHere(s.wheel.home, l, ts);
    assert s.wheel.home[t.id] == l;
    DetachFrame(s.wheel, l, t.id);
    AddLowers(s, TakenOut(s, l, t), l, t);
  }

  lemma AddLowers(s: World, s1: World, l: Loc, t: Timer)
    requires t.id in s.wheel.home && s.wheel.home[t.id] == l && l.level >= 0
    requires Inv(s1.wheel, Some(l)) && Below(s1.wheel, l, t)
    requires s1.wheel.home == s.wheel.home - {t.id} && s1.wheel.queue == s.wheel.queue
    requires s1.issued == s.issued && s1.stopped == s.stopped && s1.fired == s.fired
    ensures Lowered(s, AddOrRun(s1, t), l)
    ensures Potential(AddOrRun(s1, t).wheel) < Potential(s.wheel)
  {
    AddedHome(s1.wheel, l, t);
    AddMoves(s, AddOrRun(s1, t), l, t.id);
    AddGrowsQueue(s1.wheel, 0, t);
    WeightDrops(s.wheel.home, Add(s1.wheel, 0, t).0.home, t.id);
  }

  /** Timer `id` of bucket l is gone, or in a bucket of a lower level. */
  ghost predicate HomeLower(home: map<nat, Loc>, home': map<nat, Loc>, l: Loc, id: nat) {
    || home' == home - {id}
    || (id in home' && home' == (home - {id})[id := home'[id]] && 0 <= home'[id].level < l.level)
  }

  lemma AddedHome(w: Wheel, l: Loc, t: Timer)
    requires Inv(w, Some(l)) && Below(w, l, t) && t.id !in w.home
    ensures HomeLower(w.home, Add(w, 0, t).0.home, l, t.id)
  {
    AddInv(w, Some(l), 0, t);
    assert w.home - {t.id} == w.home;
  }

  lemma AddMoves(s: World, s': World, l: Loc, id: nat)
    requires id in s.wheel.home && s.wheel.home[id] == l
    requires HomeLower(s.wheel.home - {id}, s'.wheel.home, l, id)
    requires s'.issued == s.issued && s'.stopped == s.stopped && s.fired <= s'.fired
    ensures Lowered(s, s', l)
  {
  }

  lemma WeightDrops(home: map<nat, Loc>, home': map<nat, Loc>, id: nat)
    requires id in home && home[id].level >= 0
    requires HomeLower(home - {id}, home', home[id], id)
    ensures Weight(home') + 1 <= Weight(home)
  {
    assert home - {id} - {id} == home - {id};
    WeightOf(home, id);
    if id in home' {
      WeightOf(home', id);
      assert home' - {id} == home - {id};
    }
  }

  lemma {:induction false} CascadeLowers(s: World, l: Loc, ts: seq<Timer>)
    requires WorldInv(s, Some(l)) && Flushing(s, l, ts)
    ensures Lowered(s, Cascade(s, l, ts), l)
    ensures Potential(Cascade(s, l, ts).wheel) <= Potential(s.wheel)
    decreases |ts|
  {
    if ts != [] {
      ReinsertInv(s, l, ts);
      ReinsertLowers(s, l, ts);
      CascadeLowers(Reinsert(s, l, ts[0]), l, ts[1..]);
    }
  }

  /** Dispatching a due bucket empties it: each of its timers has fired or is strictly lower; and
      the potential goes down, so only finitely many dispatches can follow one another. */
  lemma DispatchLowers(s: World, it: Item)
    requires WorldInv(s, None) && Due(s, it)
    ensures Lowered(s, Dispatch(s, it), it.loc)
    ensures forall id :: id in Dispatch(s, it).wheel.home ==> Dispatch(s, it).wheel.home[id] != it.loc
    ensures Potential(Dispatch(s, it).wheel) < Potential(s.wheel)
  {
    TakeItem(s, it);
    DispatchStart(s, it);
    var s1 := Popped(s, it);
    var ts := BucketAt(s1.wheel, it.loc).timers;
    AdvanceKeeps(s.wheel.(queue := s.wheel.queue - multiset{it}), 0, it.priority);
    CascadeLowers(s1, it.loc, ts);
    CascadeInv(s1, it.loc, ts);
    NobodyHome(Cascade(s1, it.loc, ts).wheel, it.loc);
  }

  lemma NobodyHome(w: Wheel, l: Loc)
    requires HomeOk(w) && BucketAt(w, l).timers == []
    ensures forall id :: id in w.home ==> w.home[id] != l
  {
    forall id | id in w.home
      ensures w.home[id] != l
    {
      assert Holds(BucketAt(w, w.home[id]).timers, id);
    }
  }

  lemma {:induction false} AdvanceKeeps(w: Wheel, k: int, e: int)
    requires 0 <= k <= |w.levels|
    requires forall j :: 0 <= j < |w.levels| ==> w.levels[j].tick > 0
    ensures Advance(w, k, e) == w.(levels := Advance(w, k, e).levels)
    decreases |w.levels| - k
  {
    if k < |w.levels| && w.levels[k].clock + w.levels[k].tick <= e {
      var c := Truncate(e, w.levels[k].tick);
      AdvanceKeeps(w.(levels := w.levels[k := w.levels[k].(clock := c)]), k + 1, c);
    }
  }

  // ---------------------------------------------------------------- potential

  /** Counts each pending timer once per level it can still fall through. */
  ghost function Weight(home: map<nat, Loc>): nat
    decreases |home|
  {
    if home == map[] then 0
    else
      var id :| id in home;
      assert |home - {id}| < |home| by { Smaller(home, id); }
      Height(home[id]) + Weight(home - {id})
  }

  ghost function Height(l: Loc): nat {
    if l.level < 0 then 1 else l.level + 1
  }

  lemma Smaller(home: map<nat, Loc>, id: nat)
    requires id in home
    ensures |home - {id}| == |home| - 1
  {
    assert (home - {id}).Keys == home.Keys - {id};
    assert |home.Keys| == |home| && |(home - {id}).Keys| == |home - {id}|;
  }

  lemma {:induction false} WeightOf(home: map<nat, Loc>, id: nat)
    requires id in home
    ensures Weight(home) == Height(home[id]) + Weight(home - {id})
    decreases |home|
  {
    var x :| x in home && Weight(home) == Height(home[x]) + Weight(home - {x});
    if x != id {
      Smaller(home, x);
      Smaller(home, id);
      WeightOf(home - {x}, id);
      WeightOf(home - {id}, x);
      assert home - {x} - {id} == home - {id} - {x};
    }
  }

  ghost function Potential(w: Wheel): nat {
    |w.queue| + 2 * Weight(w.home)
  }

  lemma {:induction false} AddGrowsQueue(w: Wheel, k: int, t: Timer)
    requires Shape(w) && 0 <= k < |w.levels|
    ensures |Add(w, k, t).0.queue| <= |w.queue| + 1
    decreases t.expiration - w.levels[k].tick
  {
    var lv := w.levels[k];
    if lv.clock + lv.tick * w.size <= t.expiration && lv.clock + lv.tick <= t.expiration {
      OverflowShape(w);
      MulMonotone(2, w.size, lv.tick);
      var w' := if k + 1 == |w.levels| then Overflow(w) else w;
      assert Linked(w', k + 1);
      AddGrowsQueue(w', k + 1, t);
    }
  }

  // ---------------------------------------------------------------- runs

  datatype Event =
    | Schedule(expiration: int, now: int)   // AfterFunc called at `now`
    | Cancel(id: nat)                       // Timer.Stop
    | Fire(item: Item, now: int)            // polling at `now` takes `item`
    | Pass(now: int)                        // time passes

  /** A new wheel, before anything is scheduled. */
  function Init(tick: int, size: int, start: int): World
    requires tick > 0 && size >= 2 && start >= 0
  {
    World(Wheel(size, [NewLevel(tick, size, start)], multiset{}, map[]), [], [], {}, map[], start)
  }

  lemma InitInv(tick: int, size: int, start: int)
    requires tick > 0 && size >= 2 && start >= 0
    ensures WorldInv(Init(tick, size, start), None)
  {
    NewLevelShape(tick, size, start);
    var w := Init(tick, size, start).wheel;
    assert forall l :: BucketAt(w, l) == Bucket(IDLE, []);
  }

  lemma LaterInv(s: World, now: int)
    requires WorldInv(s, None) && s.now <= now
    ensures WorldInv(s.(now := now), None)
  {
    var s' := s.(now := now);
    assert forall x :: Fired(s', x) <==> Fired(s, x);
    assert forall x :: Issued(s', x) <==> Issued(s, x);
    assert forall t: Timer :: Genuine(s, t) ==> Genuine(s', t);
    assert forall l :: BucketAt(s'.wheel, l) == BucketAt(s.wheel, l);
  }

  /** One event; an event that cannot happen (time running back, an item that is not due) is no
      step at all. */
  ghost function Step(s: World, ev: Event): (s': World)
    requires WorldInv(s, None)
    ensures WorldInv(s', None) && s'.wheel.levels[0].tick == s.wheel.levels[0].tick
  {
    match ev
    case Schedule(e, now) =>
      if now < s.now then s
      else
        LaterInv(s, now);
        AfterFuncInv(s.(now := now), e);
        AfterFunc(s.(now := now), e)
    case Cancel(id) =>
      StopInv(s, id);
      Stop(s, id).0
    case Fire(it, now) =>
      if now < s.now then s
      else
        LaterInv(s, now);
        if !Due(s.(now := now), it) then s
        else
          DispatchInv(s.(now := now), it);
          Dispatch(s.(now := now), it)
    case Pass(now) =>
      if now < s.now then s
      else
        LaterInv(s, now);
        s.(now := now)
  }

  ghost function Exec(s: World, evs: seq<Event>): World
    requires WorldInv(s, None)
    decreases |evs|
  {
    if evs == [] then s else Exec(Step(s, evs[0]), evs[1..])
  }

  lemma {:induction false} RunInv(s: World, evs: seq<Event>)
    requires WorldInv(s, None)
    ensures WorldInv(Exec(s, evs), None)
    ensures Exec(s, evs).wheel.levels[0].tick == s.wheel.levels[0].tick
    decreases |evs|
  {
    if evs != [] {
      RunInv(Step(s, evs[0]), evs[1..]);
    }
  }

  /** Firing accuracy over any run of a new wheel. No timer fires twice; a firing is of a timer that
      was scheduled, with the expiration it was scheduled for, not before the tick that expiration
      falls in, so less than a tick early; every scheduled timer is in just one of bucket, stopped
      and fired; and no timer cascades more often than there are levels. */
  lemma RunIsSafe(tick: int, size: int, start: int, evs: seq<Event>)
    requires tick > 0 && size >= 2 && start >= 0
    ensures WorldInv(Init(tick, size, start), None)
    ensures var r := Exec(Init(tick, size, start), evs);
      && (forall i, j :: 0 <= i < j < |r.fired| ==> r.fired[i].timer.id != r.fired[j].timer.id)
      && (forall i :: 0 <= i < |r.fired| ==> OnTime(r, r.fired[i], tick))
      && (forall id :: Issued(r, id) <==> id in r.wheel.home || id in r.stopped || Fired(r, id))
      && (forall id :: id in r.wheel.home ==> id !in r.stopped && !Fired(r, id))
      && (forall id :: id in r.stopped ==> !Fired(r, id))
      && (forall id :: id in r.hops ==> r.hops[id] <= |r.wheel.levels|)
  {
    InitInv(tick, size, start);
    RunInv(Init(tick, size, start), evs);
    var r := Exec(Init(tick, size, start), evs);
    assert r.wheel.levels[0].tick == tick;
  }

  ghost predicate OnTime(s: World, f: Firing, tick: int)
    requires tick > 0
  {
    && Genuine(s, f.timer)
    && Truncate(f.timer.expiration, tick) <= f.at <= s.now
    && f.timer.expiration < f.at + tick
  }

  /** In every state: a timer fires within the call that schedules it if and only if its expiration
      lies before the end of the clock's tick; otherwise it is pending afterwards, and nothing fires. */
  lemma FiresAtOnceIffExpired(s: World, e: int)
    requires WorldInv(s, None)
    ensures var t, id := AfterFunc(s, e), |s.issued| + 1;
      if e < s.wheel.levels[0].clock + s.wheel.levels[0].tick
      then t.fired == s.fired + [Firing(Timer(id, e), s.now)] && id !in t.wheel.home
      else t.fired == s.fired && id in t.wheel.home
  {
    var id := |s.issued| + 1;
    assert id !in s.wheel.home by {
      assert Issued(s, id) <==> id in s.wheel.home || id in s.stopped || Fired(s, id) || id in {};
    }
    AddInv(s.wheel, None, 0, Timer(id, e));
  }

  /** What a run makes of the clock: the expiration of the last bucket taken. */
  ghost function LastTaken(s: World, evs: seq<Event>, before: int): int
    requires WorldInv(s, None)
    decreases |evs|
  {
    if evs == [] then before
    else
      var ev := evs[0];
      LastTaken(Step(s, ev), evs[1..],
        if ev.Fire? && s.now <= ev.now && Due(s.(now := ev.now), ev.item) then ev.item.priority else before)
  }

  lemma {:induction false} ClockIsLastTaken(s: World, evs: seq<Event>)
    requires WorldInv(s, None)
    ensures WorldInv(Exec(s, evs), None)
    ensures Exec(s, evs).wheel.levels[0].clock == LastTaken(s, evs, s.wheel.levels[0].clock)
    decreases |evs|
  {
    if evs != [] {
      StepClock(s, evs[0]);
      ClockIsLastTaken(Step(s, evs[0]), evs[1..]);
    }
  }

  lemma StepClock(s: World, ev: Event)
    requires WorldInv(s, None)
    ensures Step(s, ev).wheel.levels[0].clock ==
      if ev.Fire? && s.now <= ev.now && Due(s.(now := ev.now), ev.item) then ev.item.priority
      else s.wheel.levels[0].clock
  {
    match ev
    case Schedule(e, now) =>
      if s.now <= now {
        LaterInv(s, now);
        AfterFuncInv(s.(now := now), e);
      }
    case Cancel(id) => StopInv(s, id);
    case Fire(it, now) =>
      if s.now <= now {
        LaterInv(s, now);
        if Due(s.(now := now), it) {
          DispatchInv(s.(now := now), it);
        }
      }
    case Pass(now) =>
  }

  /** On a new wheel: the clock stands at the start time truncated to the tick, so that a timer fires
      at once exactly if it expires before the end of the tick the wheel was made in. */
  lemma NewWheelFiresAtOnce(tick: int, size: int, start: int, now: int, e: int)
    requires tick > 0 && size >= 2 && 0 <= start <= now
    ensures WorldInv(Init(tick, size, start), None)
    ensures Init(tick, size, start).wheel.levels[0].clock == Truncate(start, tick)
    ensures var s := Init(tick, size, start).(now := now);
      var t := AfterFunc(s, e);
      if e < Truncate(start, tick) + tick then t.fired == [Firing(Timer(1, e), now)] && t.wheel.home == map[]
      else t.fired == [] && t.wheel.home.Keys == {1}
  {
    InitInv(tick, size, start);
    LaterInv(Init(tick, size, start), now);
    var s := Init(tick, size, start).(now := now);
    FiresAtOnceIffExpired(s, e);
    AddInv(s.wheel, None, 0, Timer(1, e));
    assert [] + [Firing(Timer(1, e), now)] == [Firing(Timer(1, e), now)];
  }

  ghost predicate Quiet(s: World) {
    forall it :: it in s.wheel.queue ==> s.now < it.priority
  }

  /** The wheel refines the plain list of (expiration, task) pairs: whenever polling finds nothing
      due, exactly the timers whose expiration tick has come have fired, stopped ones aside. */
  lemma QuietMeansAllDueFired(s: World)
    requires WorldInv(s, None) && Quiet(s)
    ensures forall id :: Issued(s, id) && id !in s.stopped ==>
      (Fired(s, id) <==> Truncate(s.issued[id - 1], s.wheel.levels[0].tick) <= s.now)
  {
    forall id | Issued(s, id) && id !in s.stopped
      ensures Fired(s, id) <==> Truncate(s.issued[id - 1], s.wheel.levels[0].tick) <= s.now
    {
      if Fired(s, id) {
        var i :| 0 <= i < |s.fired| && s.fired[i].timer.id == id;
        assert Genuine(s, s.fired[i].timer);
      } else {
        PendingIsLater(s, id);
      }
    }
  }

  lemma PendingIsLater(s: World, id: nat)
    requires WorldInv(s, None) && Quiet(s) && id in s.wheel.home
    ensures Issued(s, id) && s.now < Truncate(s.issued[id - 1], s.wheel.levels[0].tick)
  {
    var l := s.wheel.home[id];
    assert Holds(BucketAt(s.wheel, l).timers, id);
    var j :| 0 <= j < |BucketAt(s.wheel, l).timers| && BucketAt(s.wheel, l).timers[j].id == id;
    assert Genuine(s, BucketAt(s.wheel, l).timers[j]);
    QuietBucketIsLater(s.wheel, s.now, l, j);
  }

  lemma QuietBucketIsLater(w: Wheel, now: int, l: Loc, j: int)
    requires Inv(w, None) && 0 <= j < |BucketAt(w, l).timers|
    requires forall it :: it in w.queue ==> now < it.priority
    ensures now < Truncate(BucketAt(w, l).timers[j].expiration, w.levels[0].tick)
  {
    var b := BucketAt(w, l);
    assert BucketOk(w.levels[l.level], w.size, l.slot, b);
    assert Armed(w, Item(l, b.expiration));
    assert Item(l, b.expiration) in w.queue;
    CoarseIsFine(w, 0, l.level, b.expiration);
    MultiplesNotBelow(b.expiration, b.timers[j].expiration, w.levels[0].tick);
  }

  /** Once Stop has returned true the timer never fires, whatever happens next. */
  lemma {:induction false} StoppedNeverFires(s: World, id: nat, evs: seq<Event>)
    requires WorldInv(s, None) && Stop(s, id).1
    ensures !Fired(Exec(s, [Cancel(id)] + evs), id)
  {
    StopInv(s, id);
    var s1 := Step(s, Cancel(id));
    assert ([Cancel(id)] + evs)[1..] == evs;
    assert id in s1.stopped;
    StaysStopped(s1, id, evs);
  }

  lemma {:induction false} StaysStopped(s: World, id: nat, evs: seq<Event>)
    requires WorldInv(s, None) && id in s.stopped
    ensures id in Exec(s, evs).stopped && !Fired(Exec(s, evs), id)
    decreases |evs|
  {
    if evs != [] {
      StepKeepsStopped(s, evs[0]);
      StaysStopped(Step(s, evs[0]), id, evs[1..]);
    }
  }

  lemma StepKeepsStopped(s: World, ev: Event)
    requires WorldInv(s, None)
    ensures s.stopped <= Step(s, ev).stopped
  {
    match ev
    case Fire(it, now) =>
      if s.now <= now {
        LaterInv(s, now);
        if Due(s.(now := now), it) {
          DispatchLowers(s.(now := now), it);
        }
      }
    case _ =>
  }

  lemma SomeDue(s: World)
    requires WorldInv(s, None) && !Quiet(s)
    ensures exists it :: Due(s, it)
  {
    var it :| it in s.wheel.queue && it.priority <= s.now;
    var m := Least(s.wheel.queue, it);
    assert Due(s, m);
  }

  lemma {:induction false} Least(q: multiset<Item>, it: Item) returns (m: Item)
    requires it in q
    ensures m in q && m.priority <= it.priority
    ensures forall x :: x in q ==> m.priority <= x.priority
    decreases |q|
  {
    if exists x :: x in q && x.priority < it.priority {
      var x :| x in q && x.priority < it.priority;
      assert x in q[it := 0];
      m := Least(q[it := 0], x);
    } else {
      m := it;
    }
  }

  ghost predicate SameHistory(s: World, r: World)
    requires Shape(s.wheel) && Shape(r.wheel)
  {
    && r.now == s.now && r.issued == s.issued && r.stopped == s.stopped && s.fired <= r.fired
    && r.wheel.levels[0].tick == s.wheel.levels[0].tick
  }

  lemma PollStep(s: World) returns (it: Item, s': World)
    requires WorldInv(s, None) && !Quiet(s)
    ensures WorldInv(s', None) && SameHistory(s, s')
    ensures s' == Step(s, Fire(it, s.now))
    ensures Potential(s'.wheel) < Potential(s.wheel)
  {
    SomeDue(s);
    it :| Due(s, it);
    assert s.(now := s.now) == s;
    DispatchInv(s, it);
    DispatchLowers(s, it);
    s' := Dispatch(s, it);
  }

  /** The events are dispatches at the time s stands at, no more than its potential allows; they lead
      to a state in which nothing is due, and only fire timers. */
  ghost predicate PollsOut(s: World, evs: seq<Event>)
    requires WorldInv(s, None)
  {
    && AllFire(evs, s.now) && |evs| <= Potential(s.wheel)
    && WorldInv(Exec(s, evs), None) && Quiet(Exec(s, evs)) && SameHistory(s, Exec(s, evs))
  }

  ghost predicate AllFire(evs: seq<Event>, now: int) {
    forall i :: 0 <= i < |evs| ==> evs[i].Fire? && evs[i].now == now
  }

  /** Polling at a fixed time ends: after at most `Potential` dispatches nothing is due. */
  lemma {:induction false} PollingEnds(s: World) returns (evs: seq<Event>)
    requires WorldInv(s, None)
    ensures PollsOut(s, evs)
    decreases Potential(s.wheel)
  {
    if Quiet(s) {
      evs := [];
    } else {
      var it, s' := PollStep(s);
      var rest := PollingEnds(s');
      PollsOn(s, it, s', rest);
      evs := [Fire(it, s.now)] + rest;
    }
  }

  lemma PollsOn(s: World, it: Item, s': World, rest: seq<Event>)
    requires WorldInv(s, None) && WorldInv(s', None) && SameHistory(s, s') && PollsOut(s', rest)
    requires s' == Step(s, Fire(it, s.now)) && Potential(s'.wheel) < Potential(s.wheel)
    ensures PollsOut(s, [Fire(it, s.now)] + rest)
  {
    ExecFirst(s, Fire(it, s.now), rest);
    SameTwice(s, s', Exec(s', rest));
    OneMoreFire(it, rest, s.now);
  }

  lemma OneMoreFire(it: Item, rest: seq<Event>, now: int)
    requires AllFire(rest, now)
    ensures AllFire([Fire(it, now)] + rest, now)
  {
  }

  lemma ExecFirst(s: World, ev: Event, rest: seq<Event>)
    requires WorldInv(s, None)
    ensures Exec(s, [ev] + rest) == Exec(Step(s, ev), rest)
  {
    assert ([ev] + rest)[1..] == rest;
  }

  lemma SameTwice(s: World, m: World, r: World)
    requires Shape(s.wheel) && Shape(m.wheel) && Shape(r.wheel) && SameHistory(s, m) && SameHistory(m, r)
    ensures SameHistory(s, r)
  {
  }

  /** So from every state polling fires exactly the timers whose expiration tick has come. */
  lemma PollingFiresExactlyDue(s: World) returns (evs: seq<Event>)
    requires WorldInv(s, None)
    ensures forall i :: 0 <= i < |evs| ==> evs[i].Fire? && evs[i].now == s.now
    ensures WorldInv(Exec(s, evs), None) && Quiet(Exec(s, evs))
    ensures forall id :: Issued(s, id) && id !in s.stopped ==>
      (Fired(Exec(s, evs), id) <==> Truncate(s.issued[id - 1], s.wheel.levels[0].tick) <= s.now)
  {
    evs := PollingEnds(s);
    var r := Exec(s, evs);
    QuietMeansAllDueFired(r);
    assert forall id :: Issued(r, id) <==> Issued(s, id);
  }
}
