/** The write processor that runs on a serial worker queue instead of a goroutine of its own:
    producers post a drain job when the queue becomes non-empty, a drain job posts its successor,
    and Stop posts the one shutdown job. The worker queue is used as WorkerQueue proves it: one job
    at a time, in push order. Atomic steps as in WriteProtocol. */
module WriteWorker {
  datatype Job = Drain | Shutdown

  /** What the worker is doing. */
  datatype Worker =
    | Idle
    | Draining                     // drainJob: about to pop
    | Writing(repost: bool)        // drainJob: in writeFn; `repost` is remain > 0 && !closing
    | Ending(repost: bool)         // about to repost, or to fetch the next job
    | Flushing(flush: bool)        // shutdownJob: about to pop
    | Holding(flush: bool)         // shutdownJob: popped, about to read abortFlush
    | Sending                      // shutdownJob: in writeFn
    | Releasing                    // shutdownJob: releasing what is left

  datatype Stopper = NotCalled | Posting | Waiting | Joining | Returned

  datatype State = State(
    queue: seq<nat>, batch: seq<nat>,
    accepted: seq<nat>, sent: seq<nat>, released: seq<nat>,
    pushing: seq<nat>, wakers: nat, jobs: seq<Job>, worker: Worker,
    stopper: Stopper, flush: bool, abort: bool, done: bool,
    failed: bool)                  // some write ended in a fatal error
  {
    predicate IsClosing() {
      !stopper.NotCalled?
    }
  }

  const START := State([], [], [], [], [], [], 0, [], Idle, NotCalled, false, false, false, false)

  datatype Event =
    | Enter(b: nat)                // lock sendMu, read closing == false
    | Push                         // push and unlock
    | Wake                         // the producer posts a drain job
    | Pop(n: nat)                  // PopMany under sendMu
    | Decide                       // shutdownJob: the batch is sent, or dropped
    | Send(n: nat)                 // n buffers of the batch go out and are released
    | Written                      // writeFn or its retry succeeds
    | GiveUp                       // a fatal write error: the rest of the batch is released
    | Repost                       // drainJob posts its successor
    | End                          // the worker fetches the next job
    | Stop(flush: bool)            // closing = true
    | PostShutdown
    | Joined                       // drainedCh or doneCh is closed
    | Timeout                      // the flush timer fires: abortFlush = true
    | Return                       // doneCh is closed

  function Begun(s: State, j: Job): Worker {
    if j.Drain? then Draining else Flushing(s.flush)
  }

  /** WorkerQueue.Push with one slot. */
  function Post(s: State, j: Job): State {
    if s.worker.Idle? then s.(worker := Begun(s, j)) else s.(jobs := s.jobs + [j])
  }

  predicate InWrite(w: Worker) {
    w.Writing? || w.Sending?
  }

  predicate Enabled(s: State, ev: Event) {
    match ev
    case Enter(_) => s.pushing == [] && !s.IsClosing()
    case Push => s.pushing != []
    case Wake => s.wakers > 0
    case Pop(n) =>
      && (s.worker.Draining? || s.worker.Flushing? || s.worker.Releasing?)
      && s.pushing == [] && n <= |s.queue| && (n == 0 <==> s.queue == [])
    case Decide => s.worker.Holding?
    case Send(n) => InWrite(s.worker) && 0 < n <= |s.batch|
    case Written => InWrite(s.worker) && s.batch == []
    case GiveUp => InWrite(s.worker)
    case Repost => s.worker == Ending(true)
    case End => s.worker == Ending(false)
    case Stop(_) => !s.IsClosing()
    case PostShutdown => s.stopper.Posting?
    case Joined => s.stopper.Waiting? && s.done
    case Timeout => s.stopper.Waiting?
    case Return => s.stopper.Joining? && s.done
  }

  function Popped(s: State, n: nat): State
    requires Enabled(s, Pop(n))
  {
    match s.worker
    case Draining =>
      if n == 0 then s.(worker := Ending(false))
      else s.(batch := s.queue[..n], queue := s.queue[n..],
              worker := Writing(n < |s.queue| && !s.IsClosing()))
    case Flushing(f) =>
      if n == 0 then s.(worker := Releasing)
      else s.(batch := s.queue[..n], queue := s.queue[n..], worker := Holding(f))
    case Releasing =>
      if n == 0 then s.(done := true, worker := Ending(false))
      else s.(released := s.released + s.queue[..n], queue := s.queue[n..])
  }

  function Step(s: State, ev: Event): State
    requires Enabled(s, ev)
  {
    match ev
    case Enter(b) => s.(pushing := [b])
    case Push =>
      s.(queue := s.queue + s.pushing, accepted := s.accepted + s.pushing, pushing := [],
         wakers := if s.queue == [] then s.wakers + 1 else s.wakers)
    case Wake => Post(s.(wakers := s.wakers - 1), Drain)
    case Pop(n) => Popped(s, n)
    case Decide =>
      if s.worker.flush && !s.abort then s.(worker := Sending)
      else s.(released := s.released + s.batch, batch := [], worker := Flushing(false))
    case Send(n) =>
      s.(sent := s.sent + s.batch[..n], released := s.released + s.batch[..n], batch := s.batch[n..])
    case Written =>
      s.(worker := if s.worker.Sending? then Flushing(true) else Ending(s.worker.repost))
    case GiveUp =>
      s.(released := s.released + s.batch, batch := [], failed := true,
         worker := if s.worker.Sending? then Releasing else Ending(false))
    case Repost => s.(jobs := s.jobs + [Drain], worker := Ending(false))
    case End =>
      if s.jobs == [] then s.(worker := Idle)
      else s.(worker := Begun(s, s.jobs[0]), jobs := s.jobs[1..])
    case Stop(f) => s.(flush := f, stopper := Posting)
    case PostShutdown => Post(s.(stopper := if s.flush then Waiting else Joining), Shutdown)
    case Joined => s.(stopper := Joining)
    case Timeout => s.(abort := true, stopper := Joining)
    case Return => s.(stopper := Returned)
  }

  ghost predicate Conserved(s: State) {
    && s.accepted == s.released + s.batch + s.queue
    && (s.batch != [] ==> InWrite(s.worker) || s.worker.Holding?)
  }

  predicate ShuttingDown(w: Worker) {
    w.Flushing? || w.Holding? || w.Sending? || w.Releasing?
  }

  /** Something is on its way to the queue: the chain of drain jobs is not broken. */
  predicate Chained(s: State) {
    || s.wakers > 0
    || Drain in s.jobs
    || s.worker.Draining?
    || s.worker == Writing(true)
    || s.worker == Ending(true)
    || (s.IsClosing() && !s.done)
  }

  ghost predicate Inv(s: State) {
    && Conserved(s)
    && |s.pushing| <= 1
    && (s.worker.Idle? ==> s.jobs == [])
    && (s.queue != [] ==> Chained(s) || s.failed)
    && (ShuttingDown(s.worker) || Shutdown in s.jobs ==> s.IsClosing() && !s.stopper.Posting? && !s.done)
    && (s.IsClosing() && !s.stopper.Posting? && !s.done ==> ShuttingDown(s.worker) || Shutdown in s.jobs)
    && (s.done ==> s.queue == s.pushing == [] && s.IsClosing() && !s.stopper.Posting?)
    && (s.worker.Releasing? && !s.failed ==> s.queue == s.pushing == [])
    && (s.stopper.Returned? ==> s.done)
    && (s.stopper.Waiting? || s.abort ==> s.flush && s.IsClosing())
    && (s.done ==> s.batch == [] && !InWrite(s.worker))
    && OneShutdown(s)
  }

  /** At most one shutdown job exists, waiting or running. */
  ghost predicate OneShutdown(s: State) {
    && (ShuttingDown(s.worker) ==> Shutdown !in s.jobs)
    && forall i, j :: 0 <= i < j < |s.jobs| ==> s.jobs[i] == Drain || s.jobs[j] == Drain
  }

  lemma Split(a: seq<nat>, b: seq<nat>, c: seq<nat>, n: nat)
    requires n <= |b|
    ensures a + b + c == a + b[..n] + b[n..] + c
  {
    assert b == b[..n] + b[n..];
    assert a + (b[..n] + b[n..]) == a + b[..n] + b[n..];
  }

  lemma PopConserves(s: State, n: nat)
    requires Conserved(s) && Enabled(s, Pop(n))
    ensures Conserved(Popped(s, n))
  {
    Split(s.released, s.queue, [], n);
    assert s.released + [] == s.released && s.released + s.queue + [] == s.released + s.queue;
    assert s.released + s.queue[..n] + [] == s.released + s.queue[..n];
    assert s.released + s.queue[..n] + s.queue[n..] + [] == s.released + s.queue[..n] + s.queue[n..];
  }

  lemma StepConserves(s: State, ev: Event)
    requires Conserved(s) && Enabled(s, ev)
    ensures Conserved(Step(s, ev))
  {
    match ev
    case Pop(n) => PopConserves(s, n);
    case Send(n) => Split(s.released, s.batch, s.queue, n);
    case Push => assert s.released + s.batch + (s.queue + s.pushing) == s.accepted + s.pushing;
    case GiveUp => assert s.released + s.batch + [] == s.released + s.batch;
    case Decide => assert s.released + s.batch + [] == s.released + s.batch;
    case _ =>
  }

  lemma StepInv(s: State, ev: Event)
    requires Inv(s) && Enabled(s, ev)
    ensures Inv(Step(s, ev))
  {
    StepConserves(s, ev);
    match ev
    case Pop(n) => PopInv(s, n);
    case Wake => PostInv(s, ev);
    case Repost => PostInv(s, ev);
    case PostShutdown => PostInv(s, ev);
    case End => EndInv(s);
    case _ =>
  }

  lemma PopInv(s: State, n: nat)
    requires Inv(s) && Enabled(s, Pop(n)) && Conserved(Popped(s, n))
    ensures Inv(Popped(s, n))
  {
  }

  /** The events that add a job. */
  lemma PostInv(s: State, ev: Event)
    requires Inv(s) && Enabled(s, ev) && Conserved(Step(s, ev))
    requires ev.Wake? || ev.Repost? || ev.PostShutdown?
    ensures Inv(Step(s, ev))
  {
  }

  lemma EndInv(s: State)
    requires Inv(s) && Enabled(s, End) && Conserved(Step(s, End))
    ensures Inv(Step(s, End))
  {
    if s.jobs != [] {
      assert s.jobs == [s.jobs[0]] + s.jobs[1..];
    }
  }

  predicate Enableds(s: State, evs: seq<Event>)
    decreases |evs|
  {
    evs == [] || (Enabled(s, evs[0]) && Enableds(Step(s, evs[0]), evs[1..]))
  }

  function Steps(s: State, evs: seq<Event>): State
    requires Enableds(s, evs)
    decreases |evs|
  {
    if evs == [] then s else Steps(Step(s, evs[0]), evs[1..])
  }

  lemma {:induction false} StepsInv(s: State, evs: seq<Event>)
    requires Inv(s) && Enableds(s, evs)
    ensures Inv(Steps(s, evs))
    decreases |evs|
  {
    if evs != [] {
      StepInv(s, evs[0]);
      StepsInv(Step(s, evs[0]), evs[1..]);
    }
  }

  /** Over any run: every accepted buffer is, in order, released, in hand or queued; a non-empty
      queue has a job on its way unless a fatal write error broke the chain; and after Stop has
      returned everything was released. */
  lemma NeverStranded(evs: seq<Event>)
    requires Enableds(START, evs)
    ensures var s := Steps(START, evs);
      && s.accepted == s.released + s.batch + s.queue
      && (s.queue != [] ==> Chained(s) || s.failed)
      && (s.stopper.Returned? ==> s.queue == [])
  {
    StepsInv(START, evs);
  }

  /** How many buffers the writes of a run have put on the wire. */
  function TotalSent(evs: seq<Event>): nat {
    if evs == [] then 0 else (if evs[0].Send? then evs[0].n else 0) + TotalSent(evs[1..])
  }

  /** Only the writes send: giving up, dropping a batch and the final release send nothing. */
  lemma {:induction false} OnlyWritesSend(s: State, evs: seq<Event>)
    requires Enableds(s, evs)
    ensures |Steps(s, evs).sent| == |s.sent| + TotalSent(evs)
    decreases |evs|
  {
    if evs != [] {
      if !evs[0].Send? {
        KeepsSent(s, evs[0]);
      }
      OnlyWritesSend(Step(s, evs[0]), evs[1..]);
    }
  }

  lemma KeepsSent(s: State, ev: Event)
    requires Enabled(s, ev) && !ev.Send?
    ensures Step(s, ev).sent == s.sent
  {
    match ev
    case Pop(n) => assert Popped(s, n).sent == s.sent;
    case _ =>
  }

  /** The shutdown job flushes only when Stop asked for it. */
  ghost predicate FlushAsked(s: State) {
    && (s.worker.Flushing? || s.worker.Holding? ==> s.worker.flush ==> s.flush)
    && (s.flush ==> s.IsClosing())
    && (s.worker.Sending? ==> s.flush)
  }

  lemma FlushAskedNext(s: State, ev: Event)
    requires Inv(s) && FlushAsked(s) && Enabled(s, ev)
    ensures FlushAsked(Step(s, ev))
  {
    match ev
    case Pop(n) => assert FlushAsked(Popped(s, n));
    case _ =>
  }

  lemma {:induction false} FlushAskedRun(s: State, evs: seq<Event>)
    requires Inv(s) && FlushAsked(s) && Enableds(s, evs)
    ensures Inv(Steps(s, evs)) && FlushAsked(Steps(s, evs))
    decreases |evs|
  {
    if evs != [] {
      StepInv(s, evs[0]);
      FlushAskedNext(s, evs[0]);
      FlushAskedRun(Step(s, evs[0]), evs[1..]);
    }
  }

  /** Stop was called with an error, or its flush has timed out. */
  predicate Dropping(s: State) {
    s.IsClosing() && (!s.flush || s.abort)
  }

  lemma {:induction false} StaysDropping(s: State, evs: seq<Event>)
    requires Inv(s) && FlushAsked(s) && Enableds(s, evs) && Dropping(s) && !s.worker.Sending?
    ensures Dropping(Steps(s, evs)) && !Steps(s, evs).worker.Sending?
    decreases |evs|
  {
    if evs != [] {
      StepInv(s, evs[0]);
      FlushAskedNext(s, evs[0]);
      DroppingNext(s, evs[0]);
      StaysDropping(Step(s, evs[0]), evs[1..]);
    }
  }

  lemma DroppingNext(s: State, ev: Event)
    requires FlushAsked(s) && Enabled(s, ev) && Dropping(s) && !s.worker.Sending?
    ensures Dropping(Step(s, ev)) && !Step(s, ev).worker.Sending?
  {
    match ev
    case Pop(n) => assert Dropping(Popped(s, n)) && !Popped(s, n).worker.Sending?;
    case _ =>
  }

  /** A Stop with an error, or without the flush option, sends nothing in its shutdown job and waits
      for no flush. */
  lemma ErrorStopDoesNotFlush(evs: seq<Event>)
    requires Enableds(START, evs) && Stop(true) !in evs
    ensures !Steps(START, evs).worker.Sending? && !Steps(START, evs).stopper.Waiting?
  {
    FlushAskedRun(START, evs);
    NeverAsked(START, evs);
  }

  lemma {:induction false} NeverAsked(s: State, evs: seq<Event>)
    requires Inv(s) && Enableds(s, evs) && Stop(true) !in evs && !s.flush && !s.stopper.Waiting?
    ensures !Steps(s, evs).flush && !Steps(s, evs).stopper.Waiting?
    decreases |evs|
  {
    if evs != [] {
      assert evs[0] in evs;
      StepInv(s, evs[0]);
      KeepsFlush(s, evs[0]);
      NeverAsked(Step(s, evs[0]), evs[1..]);
    }
  }

  lemma KeepsFlush(s: State, ev: Event)
    requires Enabled(s, ev) && ev != Stop(true) && !s.flush && !s.stopper.Waiting?
    ensures !Step(s, ev).flush && !Step(s, ev).stopper.Waiting?
  {
    match ev
    case Pop(n) => assert Popped(s, n).flush == s.flush && Popped(s, n).stopper == s.stopper;
    case _ =>
  }

  /** The shutdown job is past sending, or has ended. */
  predicate PastFlush(s: State) {
    s.worker.Releasing? || s.done
  }

  lemma {:induction false} StaysPastFlush(s: State, evs: seq<Event>)
    requires Inv(s) && Enableds(s, evs) && PastFlush(s)
    ensures PastFlush(Steps(s, evs)) && !Steps(s, evs).worker.Sending?
    decreases |evs|
  {
    if evs != [] {
      StepInv(s, evs[0]);
      StaysPastFlush(Step(s, evs[0]), evs[1..]);
    }
  }

  /** A fatal write error during the final flush ends it: nothing is sent after it, the rest is
      released. */
  lemma FatalErrorEndsFlush(evs: seq<Event>, more: seq<Event>)
    requires Enableds(START, evs) && Steps(START, evs).worker.Sending?
    requires Enableds(Step(Steps(START, evs), GiveUp), more)
    ensures !Steps(Step(Steps(START, evs), GiveUp), more).worker.Sending?
  {
    StepsInv(START, evs);
    StepInv(Steps(START, evs), GiveUp);
    StaysPastFlush(Step(Steps(START, evs), GiveUp), more);
  }

  /** After Stop with an error, or a flush timeout, the shutdown job takes no further batch to the
      wire: what it finds in the queue is released unsent. */
  lemma AbortedShutdownSendsNothing(evs: seq<Event>, more: seq<Event>)
    requires Enableds(START, evs) && Enableds(Steps(START, evs), more)
    requires Dropping(Steps(START, evs)) && !Steps(START, evs).worker.Sending?
    ensures !Steps(Steps(START, evs), more).worker.Sending?
  {
    FlushAskedRun(START, evs);
    StaysDropping(Steps(START, evs), more);
  }

  /** Nothing was released without being sent. */
  ghost predicate AllSent(s: State) {
    s.sent == s.released && !s.failed && !s.abort && (s.IsClosing() ==> s.flush)
    && (s.worker.Flushing? || s.worker.Holding? ==> s.worker.flush)
  }

  lemma {:induction false} StepsSendAll(s: State, evs: seq<Event>)
    requires Inv(s) && Enableds(s, evs) && AllSent(s)
    requires Stop(false) !in evs && Timeout !in evs && GiveUp !in evs
    ensures AllSent(Steps(s, evs))
    decreases |evs|
  {
    if evs != [] {
      assert evs[0] in evs;
      StepInv(s, evs[0]);
      if evs[0].Pop? {
        assert s.released + [] == s.released;
      }
      StepsSendAll(Step(s, evs[0]), evs[1..]);
    }
  }

  /** Without a fatal write error, a flush timeout or Stop with an error, what goes out is always a
      prefix of what was accepted, and once Stop has returned it is everything. */
  lemma GracefulStopSendsAll(evs: seq<Event>)
    requires Enableds(START, evs)
    requires Stop(false) !in evs && Timeout !in evs && GiveUp !in evs
    ensures var s := Steps(START, evs);
      && s.sent <= s.accepted
      && (s.stopper.Returned? ==> s.sent == s.accepted)
  {
    StepsInv(START, evs);
    StepsSendAll(START, evs);
    var s := Steps(START, evs);
    assert s.released + [] + [] == s.released;
  }

  /** Nothing was released unsent, or nothing will be sent any more. */
  ghost predicate NoGap(s: State) {
    && s.sent <= s.released
    && (s.sent == s.released
        || s.worker == Flushing(false) || s.worker == Holding(false) || s.worker.Releasing? || s.done)
  }

  lemma StepKeepsNoGap(s: State, ev: Event)
    requires Inv(s) && NoGap(s) && Enabled(s, ev) && !ev.GiveUp?
    ensures NoGap(Step(s, ev))
  {
    if ev.Pop? && s.worker.Releasing? && s.sent == s.released {
      assert s.released <= s.released + s.queue[..ev.n];
    }
  }

  lemma {:induction false} StepsKeepNoGap(s: State, evs: seq<Event>)
    requires Inv(s) && NoGap(s) && Enableds(s, evs) && GiveUp !in evs
    ensures Inv(Steps(s, evs)) && NoGap(Steps(s, evs))
    decreases |evs|
  {
    if evs != [] {
      assert evs[0] in evs;
      StepInv(s, evs[0]);
      StepKeepsNoGap(s, evs[0]);
      StepsKeepNoGap(Step(s, evs[0]), evs[1..]);
    }
  }

  /** Without a fatal write error what goes out is a prefix of what was accepted, however and
      whenever Stop is called. */
  lemma PrefixWithoutFatalError(evs: seq<Event>)
    requires Enableds(START, evs) && GiveUp !in evs
    ensures Steps(START, evs).sent <= Steps(START, evs).accepted
  {
    StepsKeepNoGap(START, evs);
  }

  /** No buffer is sent once another was released unsent. */
  predicate SendsInOrder(s: State, evs: seq<Event>)
    requires Enableds(s, evs)
    decreases |evs|
  {
    evs == [] || ((evs[0].Send? ==> s.sent == s.released) && SendsInOrder(Step(s, evs[0]), evs[1..]))
  }

  ghost predicate Distinct(bs: seq<nat>) {
    forall i, j :: 0 <= i < j < |bs| ==> bs[i] != bs[j]
  }

  /** What was accepted and what was sent only grow. */
  lemma {:induction false} HistoryGrows(s: State, evs: seq<Event>)
    requires Enableds(s, evs)
    ensures s.accepted <= Steps(s, evs).accepted && s.sent <= Steps(s, evs).sent
    decreases |evs|
  {
    if evs != [] {
      StepGrows(s, evs[0]);
      HistoryGrows(Step(s, evs[0]), evs[1..]);
    }
  }

  lemma StepGrows(s: State, ev: Event)
    requires Enabled(s, ev)
    ensures s.accepted <= Step(s, ev).accepted && s.sent <= Step(s, ev).sent
  {
    if !ev.Push? && !ev.Send? {
      KeepsHistory(s, ev);
    }
  }

  lemma KeepsHistory(s: State, ev: Event)
    requires Enabled(s, ev) && !ev.Push? && !ev.Send?
    ensures Step(s, ev).accepted == s.accepted && Step(s, ev).sent == s.sent
  {
    match ev
    case Pop(n) => assert Popped(s, n).accepted == s.accepted && Popped(s, n).sent == s.sent;
    case _ =>
  }

  /** A buffer sent out of order stands where another buffer was accepted. */
  lemma OutOfOrder(s: State, n: nat)
    requires Conserved(s) && Enabled(s, Send(n)) && s.sent <= s.released && s.sent != s.released
    ensures var t := Step(s, Send(n));
      |s.sent| < |t.sent| && |s.sent| < |s.released| < |t.accepted|
      && t.sent[|s.sent|] == t.accepted[|s.released|]
  {
    assert s.accepted[|s.released|] == s.batch[0];
  }

  lemma {:induction false} PrefixIffInOrder(s: State, evs: seq<Event>)
    requires Inv(s) && Enableds(s, evs) && s.sent <= s.released
    requires Distinct(Steps(s, evs).accepted)
    ensures Inv(Steps(s, evs))
    ensures Steps(s, evs).sent <= Steps(s, evs).accepted <==> SendsInOrder(s, evs)
    ensures SendsInOrder(s, evs) ==> Steps(s, evs).sent <= Steps(s, evs).released
    decreases |evs|
  {
    if evs != [] {
      var ev, t := evs[0], Step(s, evs[0]);
      StepInv(s, ev);
      if ev.Send? && s.sent != s.released {
        OutOfOrder(s, ev.n);
        HistoryGrows(t, evs[1..]);
        StepsInv(t, evs[1..]);
      } else {
        StepSentWithin(s, ev);
        PrefixIffInOrder(t, evs[1..]);
      }
    }
  }

  lemma StepSentWithin(s: State, ev: Event)
    requires Enabled(s, ev) && s.sent <= s.released && (ev.Send? ==> s.sent == s.released)
    ensures Step(s, ev).sent <= Step(s, ev).released
  {
    if !ev.Send? {
      ReleasedGrows(s, ev);
      assert Step(s, ev).sent == s.sent;
    }
  }

  lemma ReleasedGrows(s: State, ev: Event)
    requires Enabled(s, ev)
    ensures s.released <= Step(s, ev).released
  {
    if !ev.Pop? && !ev.Decide? && !ev.Send? && !ev.GiveUp? {
      assert Step(s, ev).released == s.released;
    }
  }

  /** The exact condition, for buffers that are all different: what goes out is a prefix of what was
      accepted if and only if no buffer is sent after another was released unsent. */
  lemma PrefixIffNoSendAfterLoss(evs: seq<Event>)
    requires Enableds(START, evs) && Distinct(Steps(START, evs).accepted)
    ensures Steps(START, evs).sent <= Steps(START, evs).accepted <==> SendsInOrder(START, evs)
  {
    PrefixIffInOrder(START, evs);
  }

  predicate Reaches(s: State, evs: seq<Event>, t: State) {
    Enableds(s, evs) && Steps(s, evs) == t
  }

  lemma Then(s: State, ev: Event, rest: seq<Event>, t: State)
    requires Enabled(s, ev) && Reaches(Step(s, ev), rest, t)
    ensures Reaches(s, [ev] + rest, t)
  {
    assert ([ev] + rest)[1..] == rest;
  }

  /** The state after a first buffer was lost to a fatal error. */
  const LOST := START.(accepted := [0], released := [0], failed := true)

  lemma LoseFirst(rest: seq<Event>, t: State)
    requires Reaches(LOST, rest, t)
    ensures Reaches(START, [Enter(0)] + ([Push] + ([Wake] + ([Pop(1)] + ([GiveUp] + ([End] + rest))))), t)
  {
    var s3 := START.(queue := [0], accepted := [0], worker := Draining);
    var s4 := s3.(batch := [0], queue := [], worker := Writing(false));
    assert [] + [0] == [0] && [0][..1] == [0] && [0][1..] == [];
    Then(LOST.(worker := Ending(false)), End, rest, t);
    Then(s4, GiveUp, [End] + rest, t);
    Then(s3, Pop(1), [GiveUp] + ([End] + rest), t);
    Then(START.(queue := [0], accepted := [0], wakers := 1), Wake, [Pop(1)] + ([GiveUp] + ([End] + rest)), t);
    Then(START.(pushing := [0]), Push, [Wake] + ([Pop(1)] + ([GiveUp] + ([End] + rest))), t);
    Then(START, Enter(0), [Push] + ([Wake] + ([Pop(1)] + ([GiveUp] + ([End] + rest)))), t);
  }

  lemma SendSecond(t: State)
    requires t == LOST.(accepted := [0, 1], sent := [1], released := [0, 1], worker := Writing(false))
    ensures Reaches(LOST, [Enter(1)] + ([Push] + ([Wake] + ([Pop(1)] + ([Send(1)] + [])))), t)
  {
    var s8 := LOST.(queue := [1], accepted := [0, 1], wakers := 1);
    var s9 := s8.(wakers := 0, worker := Draining);
    var s10 := s9.(batch := [1], queue := [], worker := Writing(false));
    assert [] + [1] == [1] && [0] + [1] == [0, 1] && [1][..1] == [1] && [1][1..] == [];
    assert Reaches(t, [], t);
    Then(s10, Send(1), [], t);
    Then(s9, Pop(1), [Send(1)] + [], t);
    Then(s8, Wake, [Pop(1)] + ([Send(1)] + []), t);
    Then(LOST.(pushing := [1]), Push, [Wake] + ([Pop(1)] + ([Send(1)] + [])), t);
    Then(LOST, Enter(1), [Push] + ([Wake] + ([Pop(1)] + ([Send(1)] + []))), t);
  }

  /** Unlike the write loop, the chain survives a fatal write error: a buffer accepted after it is
      still sent, so then the bytes sent need not be a prefix of those accepted. */
  lemma FatalErrorLeavesGap()
    ensures exists evs :: Enableds(START, evs) && !(Steps(START, evs).sent <= Steps(START, evs).accepted)
  {
    var t := LOST.(accepted := [0, 1], sent := [1], released := [0, 1], worker := Writing(false));
    var rest := [Enter(1)] + ([Push] + ([Wake] + ([Pop(1)] + ([Send(1)] + []))));
    SendSecond(t);
    LoseFirst(rest, t);
    assert t.sent[0] != t.accepted[0];
  }

  function JobBudget(jobs: seq<Job>): nat {
    if jobs == [] then 0 else (if jobs[0].Drain? then 2 else 3) + JobBudget(jobs[1..])
  }

  /** Once Stop was called every step uses up some of this. */
  function Budget(s: State): nat {
    8 * |s.pushing| + 4 * |s.queue| + |s.batch| + 3 * s.wakers + JobBudget(s.jobs)
    + (match s.worker
       case Idle => 0
       case Draining => 2
       case Writing(repost) => if repost then 6 else 2
       case Ending(repost) => if repost then 4 else 1
       case Flushing(_) => 3
       case Holding(_) => 5
       case Sending => 4
       case Releasing => 2)
    + (match s.stopper
       case Posting => 7
       case Waiting => 3
       case Joining => 2
       case _ => 0)
  }

  lemma {:induction false} JobBudgetSnoc(jobs: seq<Job>, j: Job)
    ensures JobBudget(jobs + [j]) == JobBudget(jobs) + if j.Drain? then 2 else 3
  {
    if jobs == [] {
      assert [] + [j] == [j];
      assert [j][1..] == [];
    } else {
      assert (jobs + [j])[1..] == jobs[1..] + [j];
      JobBudgetSnoc(jobs[1..], j);
    }
  }

  lemma PopUsesBudget(s: State, n: nat)
    requires Inv(s) && s.IsClosing() && Enabled(s, Pop(n))
    ensures Budget(Popped(s, n)) < Budget(s)
  {
    assert Popped(s, n).jobs == s.jobs;
  }

  lemma StopUsesBudget(s: State, ev: Event)
    requires Inv(s) && s.IsClosing() && Enabled(s, ev)
    ensures Step(s, ev).IsClosing() && Budget(Step(s, ev)) < Budget(s)
  {
    match ev
    case Wake => PostUsesBudget(s, ev);
    case Repost => PostUsesBudget(s, ev);
    case PostShutdown => PostUsesBudget(s, ev);
    case End => EndUsesBudget(s);
    case Pop(n) => PopUsesBudget(s, n);
    case _ =>
  }

  lemma PostUsesBudget(s: State, ev: Event)
    requires Inv(s) && s.IsClosing() && Enabled(s, ev)
    requires ev.Wake? || ev.Repost? || ev.PostShutdown?
    ensures Step(s, ev).IsClosing() && Budget(Step(s, ev)) < Budget(s)
  {
    match ev
    case Wake => PostBudget(s.(wakers := s.wakers - 1), Drain);
    case PostShutdown => PostBudget(s.(stopper := if s.flush then Waiting else Joining), Shutdown);
    case Repost => JobBudgetSnoc(s.jobs, Drain);
  }

  /** A job costs the same in the queue and at the worker. */
  lemma PostBudget(s: State, j: Job)
    ensures Budget(Post(s, j)) == Budget(s) + if j.Drain? then 2 else 3
    ensures Post(s, j).stopper == s.stopper
  {
    JobBudgetSnoc(s.jobs, j);
  }

  lemma EndUsesBudget(s: State)
    requires Inv(s) && s.IsClosing() && Enabled(s, End)
    ensures Step(s, End).IsClosing() && Budget(Step(s, End)) < Budget(s)
  {
  }

  /** The step that brings Stop closer to returning, without the timer and without a write error. */
  function Helpful(s: State): Event {
    if s.stopper.Posting? then PostShutdown
    else if s.done then (if s.stopper.Waiting? then Joined else Return)
    else if s.pushing != [] then Push
    else match s.worker
      case Writing(_) => if s.batch == [] then Written else Send(|s.batch|)
      case Sending => if s.batch == [] then Written else Send(|s.batch|)
      case Holding(_) => Decide
      case Ending(repost) => if repost then Repost else End
      case _ => Pop(|s.queue|)
  }

  /** Stop always returns: after it was called every step uses up budget, and until it has returned
      a step is possible that is neither the timer firing nor a write error. */
  lemma StopReturns(s: State)
    requires Inv(s) && s.IsClosing() && !s.stopper.Returned?
    ensures Enabled(s, Helpful(s)) && !Helpful(s).Timeout? && !Helpful(s).GiveUp?
    ensures Budget(Step(s, Helpful(s))) < Budget(s)
  {
    StopUsesBudget(s, Helpful(s));
  }
}
