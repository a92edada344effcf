/** The read processor's single producer, its consumer goroutine and Stop, interleaved. Atomic steps
    are the critical sections of mu, the accesses to `closing` and `started`, and the channel
    operations; `closing` is set outside mu, so the producer's check and its pushes are two steps. */
module ReadProtocol {
  import opened Wrappers

  /** Where the consumer is; `last` marks the drain that follows closeCh. */
  datatype Consumer =
    | NotStarted
    | Parked
    | Draining(last: bool)
    | Dispatching(last: bool)
    | Finished

  /** Where the caller inside closeOnce, or waiting behind it, is. */
  datatype Stopper = NotCalled | Flagged | Checking | Joining | Returned

  /** `pushing` holds the packets of the producer that has mu; `waking` says it is about to wake the
      consumer; `token` says that wakeCh is full; `early` that Stop came before Start. */
  datatype State = State(
    queue: seq<nat>, hand: seq<nat>, accepted: seq<nat>, handed: seq<nat>,
    pushing: Option<seq<nat>>, waking: bool, token: bool,
    consumer: Consumer, stopper: Stopper, closeCh: bool, done: bool, early: bool)

  const INIT := State([], [], [], [], None, false, false, NotStarted, NotCalled, false, false, false)

  const BATCH_BUF_SIZE := 32

  datatype Event =
    | Enter(ps: seq<nat>)     // lock mu, read closing == false
    | Push(k: nat)            // the first k packets fit in the queue; unlock
    | Wake                    // wakeConsumer
    | Start                   // the consumer goroutine starts
    | Receive                 // the consumer takes the token
    | SeeClose                // the consumer takes the closeCh case
    | Pop(n: nat)             // PopMany under mu
    | Hand                    // OnRaw on the next packet of the batch
    | Stop                    // closing = true
    | CloseCh                 // close(closeCh)
    | Check                   // Stop reads `started`
    | Return                  // doneCh is closed

  function Least(a: nat, b: nat): nat {
    if a <= b then a else b
  }

  predicate Enabled(s: State, ev: Event) {
    match ev
    case Enter(ps) => s.pushing == None && !s.waking && s.stopper.NotCalled? && ps != []
    case Push(k) => s.pushing.Some? && k <= |s.pushing.value|
    case Wake => s.waking
    case Start => s.consumer.NotStarted?
    case Receive => s.consumer.Parked? && s.token
    case SeeClose => s.consumer.Parked? && s.closeCh
    case Pop(n) => s.consumer.Draining? && s.pushing == None && n == Least(BATCH_BUF_SIZE, |s.queue|)
    case Hand => s.consumer.Dispatching? && s.hand != []
    case Stop => s.stopper.NotCalled?
    case CloseCh => s.stopper.Flagged?
    case Check => s.stopper.Checking?
    case Return => s.stopper.Joining? && s.done
  }

  function Popped(s: State, n: nat): State
    requires Enabled(s, Pop(n))
  {
    if n > 0 then
      s.(hand := s.queue[..n], queue := s.queue[n..], consumer := Dispatching(s.consumer.last))
    else if s.consumer.last then
      s.(consumer := Finished, done := true)
    else
      s.(consumer := Parked)
  }

  function Step(s: State, ev: Event): State
    requires Enabled(s, ev)
  {
    match ev
    case Enter(ps) => s.(pushing := Some(ps))
    case Push(k) =>
      var ps := s.pushing.value[..k];
      s.(queue := s.queue + ps, accepted := s.accepted + ps, pushing := None,
         waking := s.queue == [] && k > 0)
    case Wake => s.(waking := false, token := true)
    case Start => s.(consumer := Parked)
    case Receive => s.(token := false, consumer := Draining(false))
    case SeeClose => s.(consumer := Draining(true))
    case Pop(n) => Popped(s, n)
    case Hand =>
      s.(handed := s.handed + [s.hand[0]], hand := s.hand[1..],
         consumer := if |s.hand| == 1 then Draining(s.consumer.last) else s.consumer)
    case Stop => s.(stopper := Flagged)
    case CloseCh => s.(closeCh := true, stopper := Checking)
    case Check =>
      var early := s.consumer.NotStarted?;
      s.(stopper := Joining, early := early, done := s.done || early)
    case Return => s.(stopper := Returned)
  }

  ghost predicate Conserved(s: State) {
    && s.accepted == s.handed + s.hand + s.queue
    && (s.hand != [] <==> s.consumer.Dispatching?)
  }

  ghost predicate Inv(s: State) {
    && Conserved(s)
    && (s.consumer.Parked? && s.queue != [] ==> s.token || s.waking || s.closeCh)
    && (s.consumer.NotStarted? && s.queue != [] ==> s.token || s.waking)
    && (s.pushing.Some? ==> !s.waking && s.pushing.value != [])
    && (s.closeCh <==> s.stopper.Checking? || s.stopper.Joining? || s.stopper.Returned?)
    && (s.consumer.Draining? || s.consumer.Dispatching? ==> s.consumer.last ==> s.closeCh)
    && (s.consumer.Finished? ==> s.queue == [] && s.pushing == None && s.closeCh && s.done)
    && (s.done && !s.early ==> s.consumer.Finished?)
    && (s.stopper.Joining? && s.consumer.NotStarted? ==> s.early)
    && (s.early ==> s.done && (s.stopper.Joining? || s.stopper.Returned?))
    && (s.stopper.Returned? ==> s.done)
  }

  lemma Split(a: seq<nat>, b: seq<nat>, n: nat)
    requires n <= |b|
    ensures a + b == a + b[..n] + b[n..]
  {
    assert b == b[..n] + b[n..];
  }

  lemma StepConserves(s: State, ev: Event)
    requires Conserved(s) && Enabled(s, ev)
    ensures Conserved(Step(s, ev))
  {
    match ev
    case Push(k) =>
      assert s.handed + s.hand + (s.queue + s.pushing.value[..k]) == s.accepted + s.pushing.value[..k];
    case Pop(n) =>
      Split(s.handed, s.queue, n);
      assert s.handed + [] == s.handed;
    case Hand =>
      assert s.hand == [s.hand[0]] + s.hand[1..];
      assert s.handed + s.hand == s.handed + [s.hand[0]] + s.hand[1..];
    case _ =>
  }

  lemma StepInv(s: State, ev: Event)
    requires Inv(s) && Enabled(s, ev)
    ensures Inv(Step(s, ev))
  {
    StepConserves(s, ev);
  }

  predicate Enableds(s: State, evs: seq<Event>)
    decreases |evs|
  {
    evs == [] || (Enabled(s, evs[0]) && Enableds(Step(s, evs[0]), evs[1..]))
  }

  function Steps(s: State, evs: seq<Event>): State
    requires Enableds(s, evs)
    decreases |evs|
  {
    if evs == [] then s else Steps(Step(s, evs[0]), evs[1..])
  }

  lemma {:induction false} StepsInv(s: State, evs: seq<Event>)
    requires Inv(s) && Enableds(s, evs)
    ensures Inv(Steps(s, evs))
    decreases |evs|
  {
    if evs != [] {
      StepInv(s, evs[0]);
      StepsInv(Step(s, evs[0]), evs[1..]);
    }
  }

  /** Over any run: packets are handed to OnRaw in the order they were accepted, none twice and none
      skipped; and while the consumer is parked on a non-empty queue a token, an unfinished wake or
      a close is pending. */
  lemma RunIsSafe(evs: seq<Event>)
    requires Enableds(INIT, evs)
    ensures var s := Steps(INIT, evs);
      && s.accepted == s.handed + s.hand + s.queue
      && (s.consumer.Parked? && s.queue != [] ==> s.token || s.waking || s.closeCh)
  {
    StepsInv(INIT, evs);
  }

  /** When Stop has returned and had found the consumer started, every packet ever accepted has been
      handed over; without that condition it need not have been. */
  lemma AfterStop(evs: seq<Event>)
    requires Enableds(INIT, evs) && Steps(INIT, evs).stopper.Returned?
    ensures !Steps(INIT, evs).early ==> Steps(INIT, evs).handed == Steps(INIT, evs).accepted
  {
    StepsInv(INIT, evs);
    var s := Steps(INIT, evs);
    assert s.handed + [] + [] == s.handed;
  }

  ghost predicate LosesPackets(s: State, evs: seq<Event>) {
    && Enableds(s, evs)
    && Steps(s, evs).stopper.Returned?
    && Steps(s, evs).accepted != Steps(s, evs).handed
  }

  lemma Then(s: State, ev: Event, rest: seq<Event>)
    requires Enabled(s, ev) && LosesPackets(Step(s, ev), rest)
    ensures LosesPackets(s, [ev] + rest)
  {
    assert ([ev] + rest)[1..] == rest;
  }

  /** A packet can be accepted before Start; a Stop that also comes first returns without it. */
  lemma EarlyStopReturnsWithoutHanding()
    ensures exists evs :: LosesPackets(INIT, evs)
  {
    assert [0][..1] == [0] && [] + [0] == [0];
    var s2 := Step(Step(INIT, Enter([0])), Push(1));
    var s4 := Step(Step(s2, Stop), CloseCh);
    assert LosesPackets(Step(Step(s4, Check), Return), []);
    Then(Step(s4, Check), Return, []);
    Then(s4, Check, [Return] + []);
    Then(Step(s2, Stop), CloseCh, [Check] + ([Return] + []));
    Then(s2, Stop, [CloseCh] + ([Check] + ([Return] + [])));
    Then(Step(INIT, Enter([0])), Push(1), [Stop] + ([CloseCh] + ([Check] + ([Return] + []))));
    Then(INIT, Enter([0]), [Push(1)] + ([Stop] + ([CloseCh] + ([Check] + ([Return] + [])))));
  }

  /** Stop finds the consumer started if Start came before its check. */
  lemma {:induction false} StartedInTime(s: State, evs: seq<Event>)
    requires Inv(s) && Enableds(s, evs) && !s.early && !s.consumer.NotStarted?
    ensures !Steps(s, evs).early && !Steps(s, evs).consumer.NotStarted?
    decreases |evs|
  {
    if evs != [] {
      StepInv(s, evs[0]);
      StartedInTime(Step(s, evs[0]), evs[1..]);
    }
  }

  /** Stop has not come to its check, or found the consumer started. */
  predicate BeforeCheck(s: State) {
    !s.early && !s.stopper.Joining? && !s.stopper.Returned?
  }

  lemma {:induction false} StartBeforeCheck(s: State, evs: seq<Event>, i: nat)
    requires Inv(s) && Enableds(s, evs) && BeforeCheck(s)
    requires i < |evs| && evs[i] == Start && Check !in evs[..i]
    ensures !Steps(s, evs).early
    decreases |evs|
  {
    StepInv(s, evs[0]);
    if i == 0 {
      StartedInTime(Step(s, evs[0]), evs[1..]);
    } else {
      assert evs[0] in evs[..i];
      assert evs[1..][..i - 1] == evs[..i][1..];
      StartBeforeCheck(Step(s, evs[0]), evs[1..], i - 1);
    }
  }

  /** A processor whose Start precedes Stop's check, whatever was accepted before Start, hands over
      everything it accepted before Stop returns. */
  lemma StartedThenStopped(evs: seq<Event>, i: nat)
    requires Enableds(INIT, evs) && Steps(INIT, evs).stopper.Returned?
    requires i < |evs| && evs[i] == Start && Check !in evs[..i]
    ensures Steps(INIT, evs).handed == Steps(INIT, evs).accepted
  {
    StartBeforeCheck(INIT, evs, i);
    AfterStop(evs);
  }

  // ---------------------------------------------------------------- the exact condition

  /** What decides at Stop's check: a started consumer, or nothing queued and no producer about to
      push. */
  predicate SafeToReturn(s: State) {
    !s.consumer.NotStarted? || (s.queue == [] && s.pushing == None)
  }

  /** However the run goes on, when Stop has returned everything accepted was handed over. */
  ghost predicate AlwaysHandsOver(s: State) {
    forall evs :: !LosesPackets(s, evs)
  }

  lemma {:induction false} NothingComes(s: State, evs: seq<Event>)
    requires Inv(s) && Enableds(s, evs)
    requires !s.stopper.NotCalled? && s.queue == s.hand == [] && s.pushing == None
    ensures Steps(s, evs).handed == Steps(s, evs).accepted
    decreases |evs|
  {
    if evs == [] {
      assert s.handed + [] + [] == s.handed;
    } else {
      StepInv(s, evs[0]);
      NothingComes(Step(s, evs[0]), evs[1..]);
    }
  }

  lemma SafeHandsOver(s: State, evs: seq<Event>)
    requires Inv(s) && s.stopper.Checking? && SafeToReturn(s)
    ensures !LosesPackets(s, evs)
  {
    if Enableds(s, evs) && Steps(s, evs).stopper.Returned? {
      if s.consumer.NotStarted? {
        NothingComes(s, evs);
      } else {
        StartedInTime(s, evs);
        StepsInv(s, evs);
        var t := Steps(s, evs);
        assert t.handed + [] + [] == t.handed;
      }
    }
  }

  /** Queued packets that no consumer was started for are left when Stop returns. */
  lemma QueuedIsLost(s: State)
    requires Inv(s) && s.stopper.Checking? && s.consumer.NotStarted? && s.queue != []
    ensures LosesPackets(s, [Check, Return])
  {
    var t := Step(Step(s, Check), Return);
    assert |t.accepted| == |t.handed| + |t.hand| + |t.queue|;
    assert LosesPackets(t, []);
    Then(Step(s, Check), Return, []);
    assert [Return] + [] == [Return];
    Then(s, Check, [Return]);
    assert [Check] + [Return] == [Check, Return];
  }

  /** And so are those of a producer that read `closing` before Stop set it. */
  lemma PushedIsLost(s: State)
    requires Inv(s) && s.stopper.Checking? && s.consumer.NotStarted? && s.pushing.Some?
    ensures LosesPackets(s, [Push(1), Check, Return])
  {
    StepInv(s, Push(1));
    QueuedIsLost(Step(s, Push(1)));
    Then(s, Push(1), [Check, Return]);
    assert [Push(1)] + [Check, Return] == [Push(1), Check, Return];
  }

  /** Exactly when Stop keeps its promise, seen at its check of `started`. */
  lemma HandsOverIffStarted(s: State)
    requires Inv(s) && s.stopper.Checking?
    ensures AlwaysHandsOver(s) <==> SafeToReturn(s)
  {
    if SafeToReturn(s) {
      forall evs ensures !LosesPackets(s, evs) {
        SafeHandsOver(s, evs);
      }
    } else if s.queue != [] {
      QueuedIsLost(s);
    } else {
      PushedIsLost(s);
    }
  }

  /** Once Stop was called every step uses up some of this. */
  function Budget(s: State): nat {
    (if s.pushing.Some? then 3 * |s.pushing.value| + 5 else 0)
    + 3 * |s.queue| + |s.hand|
    + (if s.waking then 4 else 0) + (if s.token then 3 else 0)
    + (match s.consumer
       case NotStarted => 3
       case Parked => 2
       case Draining(last) => if last then 1 else 3
       case Dispatching(last) => if last then 1 else 3
       case Finished => 0)
    + (match s.stopper
       case NotCalled => 0
       case Flagged => 4
       case Checking => 3
       case Joining => 2
       case Returned => 0)
  }

  lemma StopUsesBudget(s: State, ev: Event)
    requires Inv(s) && !s.stopper.NotCalled? && Enabled(s, ev)
    ensures !Step(s, ev).stopper.NotCalled? && Budget(Step(s, ev)) < Budget(s)
  {
    match ev
    case Push(k) => assert |s.queue + s.pushing.value[..k]| == |s.queue| + k;
    case Pop(n) => PopUsesBudget(s, n);
    case _ =>
  }

  lemma PopUsesBudget(s: State, n: nat)
    requires Inv(s) && !s.stopper.NotCalled? && Enabled(s, Pop(n))
    ensures Budget(Popped(s, n)) < Budget(s)
  {
  }

  function Helpful(s: State): Event {
    if s.stopper.Flagged? then CloseCh
    else if s.stopper.Checking? then Check
    else if s.done then Return
    else if s.pushing.Some? then Push(|s.pushing.value|)
    else match s.consumer
      case Draining(_) => Pop(Least(BATCH_BUF_SIZE, |s.queue|))
      case Dispatching(_) => Hand
      case _ => SeeClose
  }

  /** Stop always returns: every step uses up budget and until then some step is possible. */
  lemma StopReturns(s: State)
    requires Inv(s) && !s.stopper.NotCalled? && !s.stopper.Returned?
    ensures Enabled(s, Helpful(s)) && Budget(Step(s, Helpful(s))) < Budget(s)
  {
    StopUsesBudget(s, Helpful(s));
  }
}
