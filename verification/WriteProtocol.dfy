/** The write processor's producers, its write loop and Stop, interleaved. Atomic steps are the
    critical sections of sendMu, the accesses to `closing` and the channel operations. A producer
    reads `closing` and pushes inside one critical section, but Stop sets `closing` outside it, so
    the read and the push are two steps with sendMu held in between. */
module WriteProtocol {
  /** Where the write loop is. */
  datatype Loop =
    | NotStarted              // Start has not been called
    | Parked                  // selecting on wakeCh and closeCh
    | Draining                // about to pop
    | Writing                 // in writeFn or its retries, with a batch in hand
    | Aborting                // releasing what is left
    | Drained                 // left after a graceful stop, drainedCh and doneCh closed
    | Failed                  // left after a fatal write error, doneCh closed
    | Aborted                 // left after closeCh, doneCh closed

  /** Where the one caller inside closeOnce is. */
  datatype Stopper =
    | NotCalled
    | Waking                  // flush: about to wake the writer
    | Waiting                 // flush: selecting on drainedCh, doneCh and the timer
    | Closing                 // about to close closeCh
    | Joining                 // receiving from doneCh
    | Returned

  /** `pushing` is the buffer of the producer that holds sendMu after reading closing == false;
      `wakers` producers have pushed onto an empty queue and are about to wake the writer;
      `token` says that wakeCh is full. */
  datatype State = State(
    queue: seq<nat>, batch: seq<nat>,
    accepted: seq<nat>, sent: seq<nat>, released: seq<nat>,
    pushing: seq<nat>, wakers: nat, token: bool,
    loop: Loop, stopper: Stopper, closeCh: bool)
  {
    predicate IsClosing() {
      !stopper.NotCalled?
    }

    predicate Done() {
      loop.Drained? || loop.Failed? || loop.Aborted?
    }
  }

  const START := State([], [], [], [], [], [], 0, false, NotStarted, NotCalled, false)

  datatype Event =
    | Enter(b: nat)           // lock sendMu, read closing == false
    | Push                    // push and unlock
    | Wake                    // the producer's wakeWriter
    | Start                   // the loop's goroutine starts
    | Receive                 // the loop takes the token
    | SeeClose                // the loop takes the closeCh case
    | Pop(n: nat)             // PopMany under sendMu
    | Send(n: nat)            // n buffers of the batch go out and are released
    | Written                 // writeFn or its retry succeeds
    | GiveUp                  // a fatal write error: the rest of the batch is released
    | Discard(n: nat)         // PopMany and release after closeCh
    | Stop(flush: bool)       // closing = true
    | WakeForStop             // Stop's wakeWriter
    | Joined                  // drainedCh or doneCh is closed
    | Timeout                 // the flush timer fires
    | CloseCh                 // close(closeCh)
    | Return                  // doneCh is closed

  predicate Enabled(s: State, ev: Event) {
    match ev
    case Enter(_) => s.pushing == [] && !s.IsClosing()
    case Push => s.pushing != []
    case Wake => s.wakers > 0
    case Start => s.loop.NotStarted?
    case Receive => s.loop.Parked? && s.token
    case SeeClose => s.loop.Parked? && s.closeCh
    case Pop(n) => s.loop.Draining? && s.pushing == [] && n <= |s.queue| && (n == 0 <==> s.queue == [])
    case Send(n) => s.loop.Writing? && 0 < n <= |s.batch|
    case Written => s.loop.Writing? && s.batch == []
    case GiveUp => s.loop.Writing?
    case Discard(n) => s.loop.Aborting? && s.pushing == [] && n <= |s.queue| && (n == 0 <==> s.queue == [])
    case Stop(_) => !s.IsClosing()
    case WakeForStop => s.stopper.Waking?
    case Joined => s.stopper.Waiting? && s.Done()
    case Timeout => s.stopper.Waiting?
    case CloseCh => s.stopper.Closing?
    case Return => s.stopper.Joining? && s.Done()
  }

  function Step(s: State, ev: Event): State
    requires Enabled(s, ev)
  {
    match ev
    case Enter(b) => s.(pushing := [b])
    case Push =>
      s.(queue := s.queue + s.pushing, accepted := s.accepted + s.pushing, pushing := [],
         wakers := if s.queue == [] then s.wakers + 1 else s.wakers)
    case Wake => s.(wakers := s.wakers - 1, token := true)
    case Start => s.(loop := Parked)
    case Receive => s.(token := false, loop := Draining)
    case SeeClose => s.(loop := Aborting)
    case Pop(n) =>
      if n > 0 then s.(batch := s.queue[..n], queue := s.queue[n..], loop := Writing)
      else s.(loop := if s.IsClosing() then Drained else Parked)
    case Send(n) =>
      s.(sent := s.sent + s.batch[..n], released := s.released + s.batch[..n], batch := s.batch[n..])
    case Written => s.(loop := Draining)
    case GiveUp => s.(released := s.released + s.batch, batch := [], loop := Failed)
    case Discard(n) =>
      if n > 0 then s.(released := s.released + s.queue[..n], queue := s.queue[n..])
      else s.(loop := Aborted)
    case Stop(flush) => s.(stopper := if flush then Waking else Closing)
    case WakeForStop => s.(token := true, stopper := Waiting)
    case Joined => s.(stopper := Joining)
    case Timeout => s.(stopper := Closing)
    case CloseCh => s.(closeCh := true, stopper := Joining)
    case Return => s.(stopper := Returned)
  }

  ghost predicate Conserved(s: State) {
    && s.accepted == s.released + s.batch + s.queue
    && s.sent <= s.released
    && (s.batch != [] ==> s.loop.Writing?)
    && (s.loop.Aborting? || s.loop.Aborted? || s.loop.Failed? || s.sent == s.released)
  }

  /** Why a loop that is parked, or will be once started, cannot sleep through work. */
  ghost predicate Awake(s: State) {
    && (s.loop.Parked? || s.loop.NotStarted? ==>
          (s.queue != [] ==> s.token || s.wakers > 0) && (s.stopper.Waiting? ==> s.token))
    && (s.stopper.Joining? && !s.Done() ==> s.closeCh)
  }

  ghost predicate Inv(s: State) {
    && Conserved(s)
    && Awake(s)
    && |s.pushing| <= 1
    && (s.loop.Drained? || s.loop.Aborted? ==> s.IsClosing() && s.queue == s.pushing == [])
    && (s.stopper.Returned? ==> s.Done())
    && (s.loop.Aborting? || s.loop.Aborted? ==> s.closeCh)
    && (s.closeCh ==> s.stopper.Joining? || s.stopper.Returned?)
  }

  lemma Split(a: seq<nat>, b: seq<nat>, c: seq<nat>, n: nat)
    requires n <= |b|
    ensures a + b + c == a + b[..n] + b[n..] + c
  {
    assert b == b[..n] + b[n..];
    assert a + (b[..n] + b[n..]) == a + b[..n] + b[n..];
  }

  lemma StepConserves(s: State, ev: Event)
    requires Conserved(s) && Enabled(s, ev)
    ensures Conserved(Step(s, ev))
  {
    match ev
    case Pop(n) => Pops(s, n);
    case Discard(n) => Discards(s, n);
    case Send(n) => Split(s.released, s.batch, s.queue, n);
    case Push => assert s.released + s.batch + (s.queue + s.pushing) == s.accepted + s.pushing;
    case GiveUp => assert s.released + s.batch + [] == s.released + s.batch;
    case _ =>
  }

  lemma Pops(s: State, n: nat)
    requires Conserved(s) && Enabled(s, Pop(n))
    ensures Conserved(Step(s, Pop(n)))
  {
    assert s.batch == [];
    Split(s.released, s.queue, [], n);
    assert s.released + [] == s.released;
    assert s.released + s.queue + [] == s.released + s.queue;
    assert s.released + s.queue[..n] + s.queue[n..] + [] == s.released + s.queue[..n] + s.queue[n..];
  }

  lemma Discards(s: State, n: nat)
    requires Conserved(s) && Enabled(s, Discard(n))
    ensures Conserved(Step(s, Discard(n)))
  {
    assert s.batch == [];
    Split(s.released, s.queue, [], n);
    assert s.released + [] == s.released;
    assert s.released + s.queue + [] == s.released + s.queue;
    assert s.released + s.queue[..n] + [] == s.released + s.queue[..n];
    assert s.released + s.queue[..n] + s.queue[n..] + [] == s.released + s.queue[..n] + s.queue[n..];
  }

  lemma StepInv(s: State, ev: Event)
    requires Inv(s) && Enabled(s, ev)
    ensures Inv(Step(s, ev))
  {
    StepConserves(s, ev);
  }

  predicate Enableds(s: State, evs: seq<Event>)
    decreases |evs|
  {
    evs == [] || (Enabled(s, evs[0]) && Enableds(Step(s, evs[0]), evs[1..]))
  }

  function Steps(s: State, evs: seq<Event>): State
    requires Enableds(s, evs)
    decreases |evs|
  {
    if evs == [] then s else Steps(Step(s, evs[0]), evs[1..])
  }

  lemma {:induction false} StepsInv(s: State, evs: seq<Event>)
    requires Inv(s) && Enableds(s, evs)
    ensures Inv(Steps(s, evs))
    decreases |evs|
  {
    if evs != [] {
      StepInv(s, evs[0]);
      StepsInv(Step(s, evs[0]), evs[1..]);
    }
  }

  /** Over any run: what was accepted is, in order, what was released, what is in hand and what is
      queued, so nothing is lost, repeated or reordered and each buffer is released at most once;
      what was sent is a prefix of what was accepted. A parked loop with work has a wake-up due. */
  lemma RunIsSafe(evs: seq<Event>)
    requires Enableds(START, evs)
    ensures var s := Steps(START, evs);
      && s.accepted == s.released + s.batch + s.queue
      && s.sent <= s.released
      && s.sent <= s.accepted
      && (s.loop.Parked? && s.queue != [] ==> s.token || s.wakers > 0)
  {
    StepsInv(START, evs);
  }

  /** How many buffers the writes of a run have put on the wire. */
  function TotalSent(evs: seq<Event>): nat {
    if evs == [] then 0 else (if evs[0].Send? then evs[0].n else 0) + TotalSent(evs[1..])
  }

  /** Only the writes send: giving up and discarding release buffers that never go out. */
  lemma {:induction false} OnlyWritesSend(s: State, evs: seq<Event>)
    requires Enableds(s, evs)
    ensures |Steps(s, evs).sent| == |s.sent| + TotalSent(evs)
    ensures s.sent <= Steps(s, evs).sent
    decreases |evs|
  {
    if evs != [] {
      OnlyWritesSend(Step(s, evs[0]), evs[1..]);
    }
  }

  /** A loop that has seen closeCh, or has left. */
  predicate Leaving(s: State) {
    s.loop.Aborting? || s.Done()
  }

  /** Once the loop has seen closeCh, has given up or has drained, nothing more is sent. */
  lemma {:induction false} LeavingSendsNothing(s: State, evs: seq<Event>)
    requires Enableds(s, evs) && Leaving(s)
    ensures Leaving(Steps(s, evs)) && Steps(s, evs).sent == s.sent
    decreases |evs|
  {
    if evs != [] {
      LeavingSendsNothing(Step(s, evs[0]), evs[1..]);
    }
  }

  /** Stop neither wakes the writer for a flush nor waits for one. */
  predicate NoFlush(s: State) {
    !s.stopper.Waking? && !s.stopper.Waiting?
  }

  lemma {:induction false} StaysWithoutFlush(s: State, evs: seq<Event>)
    requires Enableds(s, evs) && NoFlush(s) && Stop(true) !in evs
    ensures NoFlush(Steps(s, evs))
    decreases |evs|
  {
    if evs != [] {
      assert evs[0] in evs;
      StaysWithoutFlush(Step(s, evs[0]), evs[1..]);
    }
  }

  /** A Stop with an error, or without the flush option, goes straight on to closing closeCh. */
  lemma ErrorStopDoesNotFlush(evs: seq<Event>)
    requires Enableds(START, evs) && Stop(true) !in evs
    ensures NoFlush(Steps(START, evs))
    ensures Steps(START, evs).IsClosing() ==> Steps(START, evs).closeCh || Steps(START, evs).stopper.Closing?
  {
    StaysWithoutFlush(START, evs);
    ClosesAtOnce(START, evs);
  }

  lemma {:induction false} ClosesAtOnce(s: State, evs: seq<Event>)
    requires Enableds(s, evs) && NoFlush(s) && Stop(true) !in evs
    requires s.IsClosing() ==> s.closeCh || s.stopper.Closing?
    ensures Steps(s, evs).IsClosing() ==> Steps(s, evs).closeCh || Steps(s, evs).stopper.Closing?
    decreases |evs|
  {
    if evs != [] {
      assert evs[0] in evs;
      ClosesAtOnce(Step(s, evs[0]), evs[1..]);
    }
  }

  /** Once Stop has returned: a loop that drained has sent everything it ever accepted, an aborted
      one has released everything, and only a fatal write error can leave buffers behind. */
  lemma AfterStop(evs: seq<Event>)
    requires Enableds(START, evs)
    requires Steps(START, evs).stopper.Returned?
    ensures var s := Steps(START, evs);
      && (s.loop.Drained? ==> s.sent == s.released == s.accepted)
      && (s.loop.Aborted? ==> s.released == s.accepted)
      && (s.queue != [] ==> s.loop.Failed?)
      && s.batch == []
  {
    StepsInv(START, evs);
    var s := Steps(START, evs);
    assert s.released + [] + [] == s.released;
  }

  /** A graceful Stop(nil) that neither timed out nor met a fatal write error sent everything. */
  lemma GracefulStopSendsAll(evs: seq<Event>)
    requires Enableds(START, evs)
    requires Steps(START, evs).stopper.Returned?
    requires Stop(false) !in evs && Timeout !in evs && GiveUp !in evs
    ensures Steps(START, evs).sent == Steps(START, evs).accepted
  {
    AfterStop(evs);
    NeverAborts(START, evs);
  }

  lemma {:induction false} NeverAborts(s: State, evs: seq<Event>)
    requires Inv(s) && Enableds(s, evs)
    requires Stop(false) !in evs && Timeout !in evs && GiveUp !in evs
    requires !s.closeCh && !s.stopper.Closing? && !s.loop.Failed?
    ensures !Steps(s, evs).closeCh && !Steps(s, evs).loop.Failed?
    ensures Steps(s, evs).stopper.Returned? ==> Steps(s, evs).loop.Drained?
    decreases |evs|
  {
    if evs != [] {
      assert evs[0] in evs;
      StepInv(s, evs[0]);
      NeverAborts(Step(s, evs[0]), evs[1..]);
    }
  }

  /** Once Stop was called every step uses up some of this. */
  function Budget(s: State): nat {
    8 * |s.pushing| + 3 * |s.queue| + |s.batch| + s.wakers
    + (match s.loop
       case NotStarted => 5
       case Parked => 4
       case Writing => 3
       case Draining => 2
       case Aborting => 1
       case _ => 0)
    + (match s.stopper
       case Waking => 5
       case Waiting => 4
       case Closing => 3
       case Joining => 2
       case _ => 0)
  }

  lemma StopUsesBudget(s: State, ev: Event)
    requires Inv(s) && s.IsClosing() && Enabled(s, ev)
    ensures Step(s, ev).IsClosing() && Budget(Step(s, ev)) < Budget(s)
  {
  }

  /** The step that brings Stop closer to returning, without the timer and without a write error.
      Of these only Start is not the write processor's own. */
  function Helpful(s: State): Event {
    if s.stopper.Waking? then WakeForStop
    else if s.stopper.Closing? then CloseCh
    else if s.Done() then (if s.stopper.Waiting? then Joined else Return)
    else if s.pushing != [] then Push
    else match s.loop
      case NotStarted => Start
      case Parked => if s.closeCh then SeeClose else Receive
      case Draining => Pop(|s.queue|)
      case Writing => if s.batch == [] then Written else Send(|s.batch|)
      case _ => Discard(|s.queue|)
  }

  /** After Stop was called every step uses up budget, and until it has returned a step is possible
      that is neither the timer firing nor a write error; it is Start only for a loop that was not
      started. */
  lemma StopReturns(s: State)
    requires Inv(s) && s.IsClosing() && !s.stopper.Returned?
    ensures Enabled(s, Helpful(s)) && !Helpful(s).Timeout? && !Helpful(s).GiveUp?
    ensures Budget(Step(s, Helpful(s))) < Budget(s)
  {
    StopUsesBudget(s, Helpful(s));
  }

  ghost predicate ReturnsWithoutStart(s: State, evs: seq<Event>) {
    Enableds(s, evs) && Start !in evs && Steps(s, evs).stopper.Returned?
  }

  lemma {:induction false} StaysUnstarted(s: State, evs: seq<Event>)
    requires Inv(s) && Enableds(s, evs) && Start !in evs && s.loop.NotStarted?
    ensures Steps(s, evs).loop.NotStarted? && !Steps(s, evs).stopper.Returned?
    decreases |evs|
  {
    if evs != [] {
      assert evs[0] in evs;
      StepInv(s, evs[0]);
      StaysUnstarted(Step(s, evs[0]), evs[1..]);
    }
  }

  lemma {:induction false} HelpfulRun(s: State) returns (evs: seq<Event>)
    requires Inv(s) && s.IsClosing() && !s.loop.NotStarted?
    ensures ReturnsWithoutStart(s, evs) && Timeout !in evs && GiveUp !in evs
    decreases Budget(s)
  {
    if s.stopper.Returned? {
      evs := [];
    } else {
      StopReturns(s);
      var ev := Helpful(s);
      StepInv(s, ev);
      StopUsesBudget(s, ev);
      var rest := HelpfulRun(Step(s, ev));
      evs := [ev] + rest;
      assert evs[1..] == rest;
    }
  }

  /** Stop returns if and only if the loop was started: without Start nobody ever closes doneCh, and
      a started loop can always be led to where Stop returns, with no timer and no write error. */
  lemma StopReturnsIffStarted(s: State)
    requires Inv(s) && s.IsClosing()
    ensures (exists evs :: ReturnsWithoutStart(s, evs)) <==> !s.loop.NotStarted?
    ensures !s.loop.NotStarted? ==>
      exists evs :: ReturnsWithoutStart(s, evs) && Timeout !in evs && GiveUp !in evs
  {
    if s.loop.NotStarted? {
      forall evs ensures !ReturnsWithoutStart(s, evs) {
        if Enableds(s, evs) && Start !in evs {
          StaysUnstarted(s, evs);
        }
      }
    } else {
      var evs := HelpfulRun(s);
    }
  }

  /** From the beginning: a run in which Stop has returned contains Start. */
  lemma ReturnedMeansStarted(evs: seq<Event>)
    requires Enableds(START, evs) && Steps(START, evs).stopper.Returned?
    ensures Start in evs
  {
    if Start !in evs {
      StaysUnstarted(START, evs);
    }
  }
}
