/** Offer (any number of callers) and the one Poll loop: which item is handed over and when, and the
    sleep/wake handshake between them. Atomic steps are the mutex sections, the operations on
    `sleeping`, and the rendezvous on wakeupC and C. */
module DelayQueueWake {
  import opened Wrappers
  import Bags
  import DQ = DelayQueue

  /** Where the poll loop is. `seen` is the earliest priority it knew of when it parked. */
  datatype Poller =
    | Looking                              // about to peek
    | Parked(seen: Option<int>)            // selecting on wakeupC, the timer (if seen) and exit
    | TimedOut                             // timer fired; about to reset `sleeping`
    | Draining                             // lost the race with an Offer; receiving its wake-up
    | Handing(item: int)                   // sending an expired element on C
    | Exited

  /** `racing` callers have pushed a new root and are about to CAS `sleeping`; `blocked` callers
      have won the CAS and are sending on wakeupC. The history: what was pushed, what C has
      delivered, in order, and what an exit found in the poller's hand. */
  datatype State = State(
    queue: multiset<int>, sleeping: bool, poller: Poller, racing: nat, blocked: nat, now: int,
    pushed: multiset<int>, delivered: seq<int>, dropped: multiset<int>)

  const START := State(multiset{}, false, Looking, 0, 0, 0, multiset{}, [], multiset{})

  datatype Event =
    | Push(priority: int, atRoot: bool)    // Offer: heap.Push under the lock
    | Race                                 // Offer: CompareAndSwap(sleeping, 1, 0)
    | Peek(now: int)                       // Poll: PeekAndShift and, when nothing is due, sleeping = 1
    | Wake                                 // rendezvous on wakeupC
    | Timeout(now: int)                    // the timer case of the select, delta after the peek
    | Reset                                // Poll: Swap(sleeping, 0)
    | HandOver                             // C receives the element
    | Exit                                 // exitC is closed

  ghost predicate Least(q: multiset<int>, p: int) {
    p in q && forall x :: x in q ==> p <= x
  }

  /** What the heap tells Offer: an item strictly earlier than all others ends at the root, and an
      item at the root is no later than any other. */
  ghost predicate RootFlag(q: multiset<int>, p: int, atRoot: bool) {
    && ((forall x :: x in q ==> p < x) ==> atRoot)
    && (atRoot ==> forall x :: x in q ==> p <= x)
  }

  /** One p less. */
  function Without(q: multiset<int>, p: int): multiset<int> {
    if p in q then q[p := q[p] - 1] else q
  }

  lemma OneLess(q: multiset<int>, p: int)
    ensures Without(q, p) == q - multiset{p}
  {
  }

  function Peeked(s: State, p: int, now: int): State {
    if now < p then s.(now := now, sleeping := true, poller := Parked(Some(p)))
    else s.(now := now, queue := Without(s.queue, p), poller := Handing(p))
  }

  ghost predicate Next(s: State, ev: Event, s': State) {
    match ev
    case Push(p, atRoot) =>
      && RootFlag(s.queue, p, atRoot)
      && s' == s.(queue := s.queue + multiset{p}, pushed := s.pushed + multiset{p},
                  racing := if atRoot then s.racing + 1 else s.racing)
    case Race =>
      && s.racing > 0
      && s' == if s.sleeping then s.(sleeping := false, racing := s.racing - 1, blocked := s.blocked + 1)
               else s.(racing := s.racing - 1)
    case Peek(now) =>
      && s.poller.Looking? && s.now <= now
      && if s.queue == multiset{} then s' == s.(now := now, sleeping := true, poller := Parked(None))
         else exists p :: Least(s.queue, p) && s' == Peeked(s, p, now)
    case Wake =>
      && s.blocked > 0 && (s.poller.Parked? || s.poller.Draining?)
      && s' == s.(blocked := s.blocked - 1, poller := Looking)
    case Timeout(now) =>
      && s.poller.Parked? && s.poller.seen.Some? && s.poller.seen.value <= now && s.now <= now
      && s' == s.(now := now, poller := TimedOut)
    case Reset =>
      && s.poller.TimedOut?
      && s' == s.(sleeping := false, poller := if s.sleeping then Looking else Draining)
    case HandOver =>
      s.poller.Handing? && s' == s.(poller := Looking, delivered := s.delivered + [s.poller.item])
    case Exit =>
      && (s.poller.Parked? || s.poller.Handing?)
      && s' == s.(sleeping := false, poller := Exited, dropped := s.dropped + InHand(s.poller))
  }

  /** The item the poller has taken and not yet handed over. */
  function InHand(p: Poller): multiset<int> {
    if p.Handing? then multiset{p.item} else multiset{}
  }

  /** The poller is at a point from which it will receive from wakeupC. */
  ghost predicate WillReceive(p: Poller) {
    p.Parked? || p.TimedOut? || p.Draining?
  }

  /** The queue holds an item earlier than the one the parked poller is waiting for. */
  ghost predicate NewEarliest(s: State) {
    s.poller.Parked? && exists p :: p in s.queue && (s.poller.seen.None? || p < s.poller.seen.value)
  }

  ghost predicate Inv(s: State) {
    && s.blocked <= 1
    && if s.poller.Exited? then !s.sleeping
       else
        && (s.blocked == 1 <==> WillReceive(s.poller) && !s.sleeping)
        && (s.sleeping ==> s.poller.Parked? || s.poller.TimedOut?)
        && (NewEarliest(s) ==> s.racing > 0 || s.blocked == 1)
  }

  lemma NextInv(s: State, ev: Event, s': State)
    requires Inv(s) && Next(s, ev, s')
    ensures Inv(s')
  {
    if !s'.poller.Exited? {
      match ev
      case Push(p, atRoot) => PushInv(s, p, atRoot, s');
      case Peek(now) => PeekInv(s, now, s');
      case _ =>
    }
  }

  lemma PushInv(s: State, p: int, atRoot: bool, s': State)
    requires Inv(s) && Next(s, Push(p, atRoot), s') && !s.poller.Exited?
    ensures Inv(s')
  {
    if NewEarliest(s') && !atRoot {
      var x :| x in s.queue && x <= p;
      assert NewEarliest(s) by {
        if s.poller.seen.Some? {
          var y :| y in s'.queue && y < s.poller.seen.value;
          assert y in s.queue || y == p;
        }
      }
    }
  }

  lemma PeekInv(s: State, now: int, s': State)
    requires Inv(s) && Next(s, Peek(now), s')
    ensures Inv(s')
  {
    if s.queue != multiset{} {
      var p :| Least(s.queue, p) && s' == Peeked(s, p, now);
    }
  }

  ghost predicate Path(states: seq<State>, evs: seq<Event>) {
    && |states| == |evs| + 1
    && forall i :: 0 <= i < |evs| ==> Next(states[i], evs[i], states[i + 1])
  }

  ghost predicate Run(states: seq<State>, evs: seq<Event>) {
    && |states| == |evs| + 1
    && states[0] == START
    && forall i :: 0 <= i < |evs| ==> Next(states[i], evs[i], states[i + 1])
  }

  /** In every reachable state at most one Offer is blocked on wakeupC, and then the poller, unless
      it has left, is at a point that receives it; a parked poller that must learn of a new earliest item has a
      wake-up on its way. */
  lemma {:induction false} NoLostWakeup(states: seq<State>, evs: seq<Event>, i: nat)
    requires Run(states, evs) && i < |states|
    ensures states[i].blocked <= 1
    ensures states[i].blocked == 1 ==> WillReceive(states[i].poller) || states[i].poller.Exited?
    ensures NewEarliest(states[i]) ==> states[i].racing > 0 || states[i].blocked == 1
  {
    RunInv(states, evs, i);
  }

  lemma {:induction false} RunInv(states: seq<State>, evs: seq<Event>, i: nat)
    requires Run(states, evs) && i < |states|
    ensures Inv(states[i])
  {
    if i > 0 {
      RunInv(states, evs, i - 1);
      NextInv(states[i - 1], evs[i - 1], states[i]);
    }
  }

  /** A racing Offer that finds the poller parked either wakes it or finds a wake-up already on
      its way: the race cannot lose the item. */
  lemma RaceWakes(s: State, s': State)
    requires Inv(s) && s.poller.Parked? && Next(s, Race, s')
    ensures s'.blocked == 1 && exists s'' :: Next(s', Wake, s'') && s''.poller.Looking?
  {
    var s'' := s'.(blocked := s'.blocked - 1, poller := Looking);
    assert Next(s', Wake, s'');
  }

  // ---------------------------------------------------------------- what is handed over, and when

  /** Some item's time has come. */
  ghost predicate SomeDue(s: State, now: int) {
    exists p :: p in s.queue && p <= now
  }

  /** A look at the queue hands an item over exactly when one is due; it is then a least one, is due,
      and has left the queue once. Otherwise the poller parks on the least item, if there is one,
      and the queue is as it was. */
  lemma HandsIffDue(s: State, now: int, s': State)
    requires Next(s, Peek(now), s')
    ensures s'.poller.Handing? <==> SomeDue(s, now)
    ensures s'.poller.Handing? ==>
      && Least(s.queue, s'.poller.item) && s'.poller.item <= now
      && s'.queue == s.queue - multiset{s'.poller.item}
    ensures !s'.poller.Handing? ==>
      && s'.poller.Parked? && s'.queue == s.queue && s'.sleeping
      && (s'.poller.seen.None? <==> s.queue == multiset{})
      && (s'.poller.seen.Some? ==> Least(s.queue, s'.poller.seen.value) && now < s'.poller.seen.value)
  {
    if s.queue == multiset{} {
      assert !SomeDue(s, now);
    } else {
      var p :| Least(s.queue, p) && s' == Peeked(s, p, now);
      assert p <= now ==> SomeDue(s, now);
      OneLess(s.queue, p);
    }
  }

  /** The poller is on its way from its timer to its next look. */
  predicate Returning(p: Poller) {
    p.TimedOut? || p.Draining?
  }

  /** Everything pushed is accounted for. */
  ghost predicate Accounted(s: State) {
    s.pushed == s.queue + InHand(s.poller) + multiset(s.delivered) + s.dropped
  }

  /** Nothing was taken before its time. */
  ghost predicate NotEarly(s: State) {
    && (s.poller.Handing? ==> s.poller.item <= s.now)
    && (forall i :: 0 <= i < |s.delivered| ==> s.delivered[i] <= s.now)
  }

  /** The timer is set for a queued item, and once it has fired an item is due. */
  ghost predicate TimerRight(s: State) {
    && (s.poller.Parked? && s.poller.seen.Some? ==> s.poller.seen.value in s.queue)
    && (Returning(s.poller) ==> SomeDue(s, s.now))
  }

  lemma OneTaken(queue: multiset<int>, p: int, out: multiset<int>, gone: multiset<int>)
    requires p in queue
    ensures queue - multiset{p} + multiset{p} + out + gone == queue + multiset{} + out + gone
  {
  }

  lemma OneDelivered(queue: multiset<int>, list: seq<int>, p: int, gone: multiset<int>)
    ensures queue + multiset{} + multiset(list + [p]) + gone == queue + multiset{p} + multiset(list) + gone
  {
    assert multiset(list + [p]) == multiset(list) + multiset{p};
  }

  lemma OneDropped(queue: multiset<int>, hand: multiset<int>, out: multiset<int>, gone: multiset<int>)
    ensures queue + multiset{} + out + (gone + hand) == queue + hand + out + gone
  {
  }

  lemma OnePushed(queue: multiset<int>, p: int, hand: multiset<int>, out: multiset<int>, gone: multiset<int>)
    ensures queue + multiset{p} + hand + out + gone == queue + hand + out + gone + multiset{p}
  {
  }

  lemma AccountedNext(s: State, ev: Event, s': State)
    requires Accounted(s) && Next(s, ev, s')
    ensures Accounted(s')
  {
    match ev
    case Peek(now) =>
      HandsIffDue(s, now, s');
      if s'.poller.Handing? {
        OneTaken(s.queue, s'.poller.item, multiset(s.delivered), s.dropped);
      }
    case HandOver => OneDelivered(s.queue, s.delivered, s.poller.item, s.dropped);
    case Exit => OneDropped(s.queue, InHand(s.poller), multiset(s.delivered), s.dropped);
    case Push(p, _) => OnePushed(s.queue, p, InHand(s.poller), multiset(s.delivered), s.dropped);
    case _ =>
  }

  lemma NotEarlyNext(s: State, ev: Event, s': State)
    requires NotEarly(s) && Next(s, ev, s')
    ensures NotEarly(s') && s.now <= s'.now && s.delivered <= s'.delivered
  {
    if ev.Peek? {
      HandsIffDue(s, ev.now, s');
    }
  }

  lemma OnlyPeekTakes(s: State, ev: Event, s': State)
    requires Next(s, ev, s') && !ev.Peek?
    ensures s.queue <= s'.queue && s.now <= s'.now
  {
  }

  lemma StillDue(s: State, s': State)
    requires SomeDue(s, s.now) && s.queue <= s'.queue && s.now <= s'.now
    ensures SomeDue(s', s'.now)
  {
    var p :| p in s.queue && p <= s.now;
    assert p in s'.queue;
  }

  lemma TimerRightNext(s: State, ev: Event, s': State)
    requires TimerRight(s) && Next(s, ev, s')
    ensures TimerRight(s')
  {
    if ev.Peek? {
      HandsIffDue(s, ev.now, s');
    } else {
      OnlyPeekTakes(s, ev, s');
      if Returning(s.poller) {
        StillDue(s, s');
      } else if ev.Timeout? {
        assert s.poller.seen.value in s'.queue;
      }
    }
  }

  lemma {:induction false} RunBooks(states: seq<State>, evs: seq<Event>, i: nat)
    requires Run(states, evs) && i < |states|
    ensures Accounted(states[i]) && NotEarly(states[i]) && TimerRight(states[i])
    decreases i
  {
    if i > 0 {
      RunBooks(states, evs, i - 1);
      assert Next(states[i - 1], evs[i - 1], states[i]);
      AccountedNext(states[i - 1], evs[i - 1], states[i]);
      NotEarlyNext(states[i - 1], evs[i - 1], states[i]);
      TimerRightNext(states[i - 1], evs[i - 1], states[i]);
    }
  }

  /** Over any run: what was pushed is, each as often as it was pushed, queued, in the poller's hand,
      delivered, or dropped by an exit; and nothing is in hand or delivered before its time. */
  lemma NothingLostOrEarly(states: seq<State>, evs: seq<Event>, i: nat)
    requires Run(states, evs) && i < |states|
    ensures var s := states[i];
      && s.pushed == s.queue + InHand(s.poller) + multiset(s.delivered) + s.dropped
      && (s.poller.Handing? ==> s.poller.item <= s.now)
      && (forall k :: 0 <= k < |s.delivered| ==> s.delivered[k] <= s.now)
  {
    RunBooks(states, evs, i);
  }

  /** In time: once the timer has fired, the next look hands an item over, whatever the callers of
      Offer do in between. */
  lemma {:induction false} TimerHands(states: seq<State>, evs: seq<Event>, n: nat)
    requires Path(states, evs) && TimerRight(states[0]) && states[0].poller.TimedOut?
    requires n < |evs| && evs[n].Peek? && forall i :: 0 <= i < n ==> !evs[i].Peek?
    ensures states[n + 1].poller.Handing?
  {
    StaysDue(states, evs, n);
    assert Next(states[n], evs[n], states[n + 1]);
    HandsIffDue(states[n], evs[n].now, states[n + 1]);
    var p :| p in states[n].queue && p <= states[n].now;
    assert SomeDue(states[n], evs[n].now);
  }

  lemma {:induction false} StaysDue(states: seq<State>, evs: seq<Event>, n: nat)
    requires Path(states, evs) && TimerRight(states[0]) && states[0].poller.TimedOut?
    requires n <= |evs| && forall i :: 0 <= i < n ==> !evs[i].Peek?
    ensures Returning(states[n].poller) || states[n].poller.Looking?
    ensures SomeDue(states[n], states[n].now)
    decreases n
  {
    if n > 0 {
      StaysDue(states, evs, n - 1);
      assert Next(states[n - 1], evs[n - 1], states[n]);
      OnlyPeekTakes(states[n - 1], evs[n - 1], states[n]);
      StillDue(states[n - 1], states[n]);
    }
  }

  // ---------------------------------------------------------------- progress

  /** The poller has a reason to look at the queue again before its timer fires, or is on its way. */
  ghost predicate Due(s: State) {
    || (s.poller.Parked? && (NewEarliest(s) || s.blocked == 1))
    || s.poller.TimedOut?
    || s.poller.Draining?
  }

  /** How far a waiting poller is from looking again. */
  function Distance(s: State): nat {
    match s.poller
    case Parked(_) => if s.sleeping then 5 else 4
    case TimedOut => if s.sleeping then 3 else 2
    case Draining => 1
    case _ => 0
  }

  /** The step that brings it closer, without the timer and without an exit. */
  function Helpful(s: State): Event {
    if s.poller.TimedOut? then Reset
    else if s.poller.Parked? && s.sleeping then Race
    else Wake
  }

  function Helped(s: State): State {
    if s.poller.TimedOut? then s.(sleeping := false, poller := if s.sleeping then Looking else Draining)
    else if s.poller.Parked? && s.sleeping then
      if s.racing > 0 then s.(sleeping := false, racing := s.racing - 1, blocked := s.blocked + 1) else s
    else if s.blocked > 0 then s.(blocked := s.blocked - 1, poller := Looking)
    else s
  }

  /** An Offer of a new earliest item gets the poller back to its queue: until it looks again, a
      helpful step is possible and brings it closer; */
  lemma HelpIsPossible(s: State)
    requires Inv(s) && Due(s)
    ensures Next(s, Helpful(s), Helped(s)) && Distance(Helped(s)) < Distance(s)
  {
  }

  /** and no step of the others takes it further away: it comes closer, or is still due and has the
      same helpful step. */
  lemma NothingSetsBack(s: State, ev: Event, s': State)
    requires Inv(s) && Due(s) && Next(s, ev, s') && !ev.Exit?
    ensures Distance(s') <= Distance(s)
    ensures Distance(s') == Distance(s) ==> Due(s') && Helpful(s') == Helpful(s)
  {
    if ev.Push? && NewEarliest(s) {
      var x :| x in s.queue && (s.poller.seen.None? || x < s.poller.seen.value);
      assert x in s'.queue;
    }
  }

  /** A caller of Offer that is sending on wakeupC can return. */
  ghost predicate CanReturn(s: State) {
    exists states: seq<State>, evs: seq<Event> ::
      Path(states, evs) && states[0] == s && states[|evs|].blocked < s.blocked
  }

  lemma {:induction false} ExitedStays(states: seq<State>, evs: seq<Event>, i: nat)
    requires Path(states, evs) && states[0].poller.Exited? && i < |states|
    ensures states[i].poller.Exited? && states[i].blocked >= states[0].blocked
  {
    if i > 0 {
      ExitedStays(states, evs, i - 1);
      assert Next(states[i - 1], evs[i - 1], states[i]);
    }
  }

  lemma OneStepPath(s: State, e: Event, t: State)
    requires Next(s, e, t) && t.blocked < s.blocked
    ensures CanReturn(s)
  {
    var states, evs := [s, t], [e];
    assert Path(states, evs) && states[0] == s && states[|evs|] == t;
  }

  lemma TwoStepPath(s: State, e: Event, t: State, f: Event, u: State)
    requires Next(s, e, t) && Next(t, f, u) && u.blocked < s.blocked
    ensures CanReturn(s)
  {
    var states, evs := [s, t, u], [e, f];
    assert Path(states, evs) && states[0] == s && states[|evs|] == u;
  }

  /** A blocked Offer can return if and only if the poll loop has not left meanwhile: the exit does
      not receive the wake-up that is under way. */
  lemma BlockedReturnsIffPolling(s: State)
    requires Inv(s) && s.blocked > 0
    ensures CanReturn(s) <==> !s.poller.Exited?
  {
    if s.poller.Exited? {
      forall states: seq<State>, evs: seq<Event> | Path(states, evs) && states[0] == s
        ensures states[|evs|].blocked >= s.blocked
      {
        ExitedStays(states, evs, |evs|);
      }
    } else if s.poller.TimedOut? {
      var t := Helped(s);
      NextInv(s, Reset, t);
      TwoStepPath(s, Reset, t, Wake, Helped(t));
    } else {
      OneStepPath(s, Wake, s.(blocked := s.blocked - 1, poller := Looking));
    }
  }

  lemma FourStepRun(e1: Event, s1: State, e2: Event, s2: State, e3: Event, s3: State, e4: Event, s4: State)
    requires Next(START, e1, s1) && Next(s1, e2, s2) && Next(s2, e3, s3) && Next(s3, e4, s4)
    ensures Run([START, s1, s2, s3, s4], [e1, e2, e3, e4])
  {
    var states, evs := [START, s1, s2, s3, s4], [e1, e2, e3, e4];
    forall i | 0 <= i < |evs| ensures Next(states[i], evs[i], states[i + 1]) {
      if i == 0 {} else if i == 1 {} else if i == 2 {} else {}
    }
  }

  /** A run from the beginning in which an Offer is left sending for good. */
  lemma OfferCanBeLeftBlocked()
    ensures exists states: seq<State>, evs: seq<Event> ::
              Run(states, evs) && states[|evs|].blocked > 0 && !CanReturn(states[|evs|])
  {
    var s1 := START.(sleeping := true, poller := Parked(None));
    var s2 := s1.(queue := s1.queue + multiset{1}, pushed := s1.pushed + multiset{1}, racing := 1);
    var s3 := s2.(sleeping := false, racing := 0, blocked := 1);
    var s4 := s3.(poller := Exited, dropped := s3.dropped + InHand(s3.poller));
    FourStepRun(Peek(0), s1, Push(1, true), s2, Race, s3, Exit, s4);
    BlockedReturnsIffPolling(s4);
    var states, evs := [START, s1, s2, s3, s4], [Peek(0), Push(1, true), Race, Exit];
    assert states[|evs|] == s4;
  }

  // ---------------------------------------------------------------- the objects take these steps

  function PriorityOf<T>(x: DQ.Item<T>): int {
    x.priority
  }

  ghost function Priorities<T>(heap: seq<DQ.Item<T>>): multiset<int> {
    Bags.Bag(heap, PriorityOf)
  }

  /** What PeekAndShift's answer makes of the state. */
  function Looked(s: State, now: int, taken: Option<int>, delta: int): State {
    s.(now := now, queue := Left(s.queue, taken), sleeping := s.sleeping || taken.None?,
       poller := if taken.Some? then Handing(taken.value)
                 else Parked(if delta == 0 then None else Some(now + delta)))
  }

  function Left(queue: multiset<int>, taken: Option<int>): multiset<int> {
    if taken.Some? then Without(queue, taken.value) else queue
  }

  ghost predicate Answered(queue: multiset<int>, now: int, taken: Option<int>, delta: int) {
    if taken.Some? then Least(queue, taken.value) && taken.value <= now
    else if delta == 0 then queue == multiset{}
    else delta > 0 && Least(queue, now + delta)
  }

  lemma LookedStep(s: State, now: int, taken: Option<int>, delta: int)
    requires s.poller.Looking? && s.now <= now && Answered(s.queue, now, taken, delta)
    ensures Next(s, Peek(now), Looked(s, now, taken, delta))
  {
    if taken.Some? {
      assert Looked(s, now, taken, delta) == Peeked(s, taken.value, now);
    } else if delta > 0 {
      assert Looked(s, now, taken, delta) == Peeked(s, now + delta, now);
    }
  }

  /** The queue itself, between the operations that may block. Its `view` is the protocol state: each
      critical section and each operation on `sleeping` is one step of it. */
  class Queue<T> {
    const pq: DQ.PriorityQueue<T>
    var sleeping: bool
    ghost var view: State

    ghost predicate Valid()
      reads this, pq, pq.pq, pq.repr
    {
      pq.Valid() && view.queue == Priorities(pq.heap) && view.sleeping == sleeping
    }

    constructor (size: nat)
      requires size >= 1
      ensures Valid() && view == START && fresh(pq) && fresh(pq.pq) && pq.repr == {}
    {
      pq := new DQ.PriorityQueue<T>(size);
      sleeping := false;
      view := START;
    }

    /** Offer, under the lock: pushes the element; true when it is the earliest. */
    method Push(elem: T, expiration: int) returns (atRoot: bool, ghost x: DQ.Item<T>)
      requires Valid()
      modifies this, pq, pq.pq, pq.repr
      ensures Valid() && Next(old(view), Event.Push(expiration, atRoot), view)
      ensures x.value == elem && x.priority == expiration && fresh(x) && pq.repr == old(pq.repr) + {x}
      ensures multiset(pq.heap) == old(multiset(pq.heap)) + multiset{x} && (pq.pq == old(pq.pq) || fresh(pq.pq))
    {
      atRoot, x := Insert(elem, expiration);
      view := view.(queue := view.queue + multiset{expiration}, pushed := view.pushed + multiset{expiration},
                    racing := if atRoot then view.racing + 1 else view.racing);
    }

    /** The heap's part of it. */
    method Insert(elem: T, expiration: int) returns (atRoot: bool, ghost x: DQ.Item<T>)
      requires pq.Valid()
      modifies pq, pq.pq, pq.repr
      ensures x.value == elem && x.priority == expiration && fresh(x) && pq.repr == old(pq.repr) + {x}
      ensures multiset(pq.heap) == old(multiset(pq.heap)) + multiset{x} && (pq.pq == old(pq.pq) || fresh(pq.pq))
      ensures pq.Valid() && Priorities(pq.heap) == old(Priorities(pq.heap)) + multiset{expiration}
      ensures RootFlag(old(Priorities(pq.heap)), expiration, atRoot)
    {
      var item := new DQ.Item(elem, expiration);
      x := item;
      ghost var before := pq.heap;
      pq.Insert(item);
      Bags.Added(before, pq.heap, item, PriorityOf);
      atRoot := item.index == 0;
      PushFlag(before, expiration, atRoot);
    }

    /** What the new item's place in the heap says about the priorities before it. */
    lemma PushFlag(before: seq<DQ.Item<T>>, p: int, atRoot: bool)
      requires atRoot ==> forall y :: y in before ==> p <= y.priority
      requires (forall y :: y in before ==> p < y.priority) ==> atRoot
      ensures RootFlag(Priorities(before), p, atRoot)
    {
      Bags.Elements(before, PriorityOf);
      if forall v :: v in Priorities(before) ==> p < v {
        forall y | y in before ensures p < y.priority {
          assert PriorityOf(y) in Priorities(before);
        }
      }
      if atRoot {
        forall v | v in Priorities(before) ensures p <= v {
          var y :| y in before && PriorityOf(y) == v;
        }
      }
    }

    /** Offer: the compare-and-swap; true when this caller must send on wakeupC. */
    method TryWake() returns (won: bool)
      requires Valid() && view.racing > 0
      modifies this
      ensures Valid() && Next(old(view), Race, view) && won == old(sleeping)
    {
      won := sleeping;
      sleeping := false;
      view := if won then view.(sleeping := false, racing := view.racing - 1, blocked := view.blocked + 1)
              else view.(racing := view.racing - 1);
    }

    /** Poll, under the lock: takes the item that is due, or goes to sleep for `delta`, without a
        timer when there is no item. */
    method Look(now: int) returns (x: DQ.Item?<T>, delta: int)
      requires Valid() && view.poller.Looking? && view.now <= now
      modifies this, pq, pq.pq, pq.repr
      ensures Valid() && Next(old(view), Peek(now), view)
      ensures pq.repr <= old(pq.repr) && (pq.pq == old(pq.pq) || fresh(pq.pq))
      ensures multiset(pq.heap) == old(multiset(pq.heap)) - (if x == null then multiset{} else multiset{x})
      ensures x != null ==> x in old(pq.heap)
      ensures x != null <==> view.poller.Handing?
      ensures x != null ==> view.poller.item == x.priority
      ensures x == null ==> delta >= 0 && view.poller == Parked(if delta == 0 then None else Some(now + delta))
    {
      ghost var taken;
      x, delta, taken := LookAt(now);
      LookedStep(old(view), now, taken, delta);
    }

    method LookAt(now: int) returns (x: DQ.Item?<T>, delta: int, ghost taken: Option<int>)
      requires Valid()
      modifies this, pq, pq.pq, pq.repr
      ensures Valid() && view == Looked(old(view), now, taken, delta)
      ensures pq.repr <= old(pq.repr) && (pq.pq == old(pq.pq) || fresh(pq.pq))
      ensures multiset(pq.heap) == old(multiset(pq.heap)) - (if x == null then multiset{} else multiset{x})
      ensures x != null ==> x in old(pq.heap)
      ensures Answered(old(view.queue), now, taken, delta)
      ensures taken == if x == null then None else Some(x.priority)
    {
      x, delta, taken := TakeDue(now);
      sleeping := sleeping || x == null;
      view := Looked(view, now, taken, delta);
    }

    /** The heap's part of it. */
    method TakeDue(now: int) returns (x: DQ.Item?<T>, delta: int, ghost taken: Option<int>)
      requires pq.Valid()
      modifies pq, pq.pq, pq.repr
      ensures pq.Valid() && Answered(old(Priorities(pq.heap)), now, taken, delta)
      ensures pq.repr <= old(pq.repr) && (pq.pq == old(pq.pq) || fresh(pq.pq))
      ensures multiset(pq.heap) == old(multiset(pq.heap)) - (if x == null then multiset{} else multiset{x})
      ensures x != null ==> x in old(pq.heap)
      ensures taken == if x == null then None else Some(x.priority)
      ensures Priorities(pq.heap) == Left(old(Priorities(pq.heap)), taken)
    {
      ghost var before := pq.heap;
      x, delta := pq.PeekAndShift(now);
      LeastItem(before, if x != null then x.priority else now + delta);
      if x == null {
        return x, delta, None;
      }
      Bags.Removed<DQ.Item<T>, int>(before, pq.heap, x, PriorityOf);
      OneLess(Priorities(before), x.priority);
      taken := Some(x.priority);
    }

    /** The least priority of a heap. */
    lemma LeastItem(heap: seq<DQ.Item<T>>, p: int)
      ensures heap == [] <==> Priorities(heap) == multiset{}
      ensures (exists y :: y in heap && y.priority == p) && (forall y :: y in heap ==> p <= y.priority)
        ==> Least(Priorities(heap), p)
    {
      Bags.Elements(heap, PriorityOf);
      if heap != [] {
        assert PriorityOf(heap[0]) in Priorities(heap);
      }
      if (exists y :: y in heap && y.priority == p) && (forall y :: y in heap ==> p <= y.priority) {
        var y :| y in heap && y.priority == p;
        assert PriorityOf(y) in Priorities(heap);
        forall v | v in Priorities(heap) ensures p <= v {
          var z :| z in heap && PriorityOf(z) == v;
        }
      }
    }

    /** Poll, after its timer: the swap; true when a caller of Offer has to be received from. */
    method Awake() returns (drain: bool)
      requires Valid() && view.poller.TimedOut?
      modifies this
      ensures Valid() && Next(old(view), Reset, view) && drain == !old(sleeping)
    {
      drain := !sleeping;
      sleeping := false;
      view := view.(sleeping := false, poller := if drain then Draining else Looking);
    }

    /** Poll, on its way out. */
    method Leave()
      requires Valid() && (view.poller.Parked? || view.poller.Handing?)
      modifies this
      ensures Valid() && Next(old(view), Exit, view)
    {
      sleeping := false;
      view := view.(sleeping := false, poller := Exited, dropped := view.dropped + InHand(view.poller));
    }
  }
}
