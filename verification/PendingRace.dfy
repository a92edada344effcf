/** Invoke and InvokeAsync against the pending table: registering, sending, the response, the
    timeout and closeAll, interleaved. Atomic steps are the counter's loads and adds, the shard
    sections and the callback runs. */
module PendingRace {
  import opened PendingTable

  /** Requests are numbered by a process-wide generator. `passed` have seen room in the counter,
      `reserved` have added themselves to it, `waiting` are in the table with a callback, `claimed`
      were taken out by a response, a timeout or closeAll and are about to be called back; `chs` are
      in the table with a channel. `leaving` requests have left the table or were refused there, and
      have not yet given their place in the counter back. */
  datatype State = State(
    max: nat, counter: int, next: nat,
    passed: set<nat>, reserved: set<nat>, waiting: set<nat>, claimed: set<nat>,
    runs: multiset<nat>,
    added: set<nat>, sent: set<nat>, failed: set<nat>, timedOut: nat,
    closed: bool, closeAt: nat,
    withdrawn: set<nat>,           // delCallback after a failed send found these still waiting
    peak: nat,                     // the most callers that were between load and add at once
    leaving: nat,
    chs: set<nat>,
    channels: set<nat>,            // every request that was added with a channel
    answered: set<nat>,            // the response was put into the channel
    dropped: set<nat>,             // delCh found the channel still in the table
    cut: set<nat>)                 // closeAll closed the channel

  function Init(max: nat): State {
    State(max, 0, 0, {}, {}, {}, {}, multiset{}, {}, {}, {}, 0, false, 0, {}, 0, 0, {}, {}, {}, {}, {})
  }

  datatype Event =
    | Check                        // load the counter and find room
    | Reserve(id: nat)             // add one to it
    | Insert(id: nat)              // addCallback: into the shard, unless closed
    | InsertCh(id: nat)            // addCh: into the shard, unless closed
    | Leave                        // subtract one from the counter
    | SendOk(id: nat)
    | SendFail(id: nat)            // the callback is run with the error
    | Withdraw(id: nat)            // delCallback after a failed send
    | Deliver(id: nat)             // the response claims the callback
    | Timeout(id: nat)             // the timer claims it, leaving the counter
    | Run(id: nat)                 // the claimed callback runs
    | DelCh(id: nat)               // Invoke returns before its response
    | Answer(id: nat)              // the response goes into the channel
    | CloseStart                   // closed = true
    | CloseShard                   // closeAll claims the next shard
    | CloseEnd                     // counter = 0

  /** A caller that found the table open may load the counter after it was closed; one that comes
      later is refused at once and takes no step. */
  predicate Enabled(s: State, ev: Event) {
    match ev
    case Check => s.counter < s.max
    case Reserve(id) => id in s.passed
    case Insert(id) => id in s.reserved
    case InsertCh(id) => id in s.reserved
    case Leave => s.leaving > 0
    case SendOk(id) => id in s.added && id !in s.sent + s.failed
    case SendFail(id) => id in s.added && id !in s.sent + s.failed
    case Withdraw(id) => id in s.failed && id in s.waiting
    case Deliver(id) => id in s.waiting
    case Timeout(id) => id in s.waiting && id in s.sent
    case Run(id) => id in s.claimed
    case DelCh(id) => id in s.chs
    case Answer(id) => id in s.chs
    case CloseStart => !s.closed
    case CloseShard => s.closed && s.closeAt < SHARD_COUNT
    case CloseEnd => s.closed && s.closeAt == SHARD_COUNT
  }

  function Step(s: State, ev: Event): State
    requires Enabled(s, ev)
  {
    match ev
    case Check =>
      s.(passed := s.passed + {s.next}, next := s.next + 1,
         peak := if |s.passed| + 1 > s.peak then |s.passed| + 1 else s.peak)
    case Reserve(id) =>
      s.(passed := s.passed - {id}, reserved := s.reserved + {id}, counter := s.counter + 1)
    case Insert(id) =>
      if s.closed then s.(reserved := s.reserved - {id}, leaving := s.leaving + 1)
      else s.(reserved := s.reserved - {id}, waiting := s.waiting + {id}, added := s.added + {id})
    case InsertCh(id) =>
      if s.closed then s.(reserved := s.reserved - {id}, leaving := s.leaving + 1)
      else s.(reserved := s.reserved - {id}, chs := s.chs + {id}, channels := s.channels + {id})
    case Leave => s.(leaving := s.leaving - 1, counter := s.counter - 1)
    case SendOk(id) => s.(sent := s.sent + {id})
    case SendFail(id) => s.(failed := s.failed + {id}, runs := s.runs + multiset{id})
    case Withdraw(id) =>
      s.(waiting := s.waiting - {id}, leaving := s.leaving + 1, withdrawn := s.withdrawn + {id})
    case Deliver(id) =>
      s.(waiting := s.waiting - {id}, claimed := s.claimed + {id}, leaving := s.leaving + 1)
    case Timeout(id) =>
      s.(waiting := s.waiting - {id}, claimed := s.claimed + {id}, timedOut := s.timedOut + 1)
    case Run(id) => s.(claimed := s.claimed - {id}, runs := s.runs + multiset{id})
    case DelCh(id) => s.(chs := s.chs - {id}, leaving := s.leaving + 1, dropped := s.dropped + {id})
    case Answer(id) => s.(chs := s.chs - {id}, leaving := s.leaving + 1, answered := s.answered + {id})
    case CloseStart => s.(closed := true)
    case CloseShard =>
      s.(waiting := s.waiting - Part(s.waiting, s.closeAt),
         claimed := s.claimed + Part(s.waiting, s.closeAt),
         chs := s.chs - Part(s.chs, s.closeAt), cut := s.cut + Part(s.chs, s.closeAt),
         closeAt := s.closeAt + 1)
    case CloseEnd => s.(counter := 0)
  }

  function One(b: bool): nat {
    if b then 1 else 0
  }

  /** The bound on the counter when at most `peak` callers were between load and add at once. */
  function Bound(max: nat, peak: nat): nat {
    if peak == 0 then 0 else max + (peak - 1)
  }

  /** Until closed, the counter is the requests in, entering or leaving the table plus the timeouts
      so far. */
  ghost predicate Counted(s: State) {
    && (!s.closed ==> s.counter == |s.waiting| + |s.chs| + |s.reserved| + s.leaving + s.timedOut)
    && |s.passed| <= s.peak
    && (!s.closed ==> s.counter + |s.passed| <= Bound(s.max, s.peak))
  }

  /** Where a request is: every added one is waiting, claimed or has run, and only one of these,
      unless its send failed. */
  ghost predicate Tracked(s: State, id: nat) {
    && (id in s.passed || id in s.reserved || id in s.added || id in s.channels ==> id < s.next)
    && One(id in s.passed) + One(id in s.reserved) + One(id in s.added) + One(id in s.channels) <= 1
    && (id !in s.added ==> id !in s.waiting && id !in s.claimed && s.runs[id] == 0)
    && (id in s.sent || id in s.failed ==> id in s.added)
    && !(id in s.sent && id in s.failed)
    && (id in s.added && id !in s.failed ==>
          One(id in s.waiting) + One(id in s.claimed) + s.runs[id] == 1)
    && (id in s.failed ==>
          One(id in s.waiting) + One(id in s.claimed) + s.runs[id] + One(id in s.withdrawn) == 2)
    && (id in s.failed ==> s.runs[id] >= 1)
    && (id in s.withdrawn ==> id in s.failed && id !in s.waiting)
    && (id in s.waiting ==> id !in s.claimed)
    && (id in s.waiting && s.closed ==> Shard(id) >= s.closeAt)
    && ChannelTracked(s, id)
  }

  /** A channel is in the table, or was answered, dropped or closed, and only one of these. */
  ghost predicate ChannelTracked(s: State, id: nat) {
    && One(id in s.chs) + One(id in s.answered) + One(id in s.dropped) + One(id in s.cut)
       == One(id in s.channels)
    && (id in s.chs && s.closed ==> Shard(id) >= s.closeAt)
  }

  ghost predicate Inv(s: State) {
    Counted(s) && (forall id :: Tracked(s, id)) && (!s.closed ==> s.closeAt == 0)
  }

  lemma StepCounts(s: State, ev: Event)
    requires Inv(s) && Enabled(s, ev)
    ensures Counted(Step(s, ev))
  {
    match ev
    case Check => CheckCounts(s);
    case Insert(id) => InsertCounts(s, id);
    case InsertCh(id) => InsertCounts(s, id);
    case Reserve(id) => InsertCounts(s, id);
    case _ =>
  }

  lemma CheckCounts(s: State)
    requires Inv(s) && Enabled(s, Check)
    ensures Counted(Step(s, Check))
  {
    assert Tracked(s, s.next);
    assert |s.passed + {s.next}| == |s.passed| + 1;
  }

  lemma InsertCounts(s: State, id: nat)
    requires Inv(s)
    ensures Enabled(s, Insert(id)) ==> Counted(Step(s, Insert(id))) && Counted(Step(s, InsertCh(id)))
    ensures Enabled(s, Reserve(id)) ==> Counted(Step(s, Reserve(id)))
  {
    assert Tracked(s, id);
  }

  lemma StepTracks(s: State, ev: Event, id: nat)
    requires Inv(s) && Enabled(s, ev)
    ensures Tracked(Step(s, ev), id)
  {
    assert Tracked(s, id) && Tracked(s, s.next);
  }

  lemma StepInv(s: State, ev: Event)
    requires Inv(s) && Enabled(s, ev)
    ensures Inv(Step(s, ev))
  {
    StepCounts(s, ev);
    forall id ensures Tracked(Step(s, ev), id) {
      StepTracks(s, ev, id);
    }
  }

  predicate Enableds(s: State, evs: seq<Event>)
    decreases |evs|
  {
    evs == [] || (Enabled(s, evs[0]) && Enableds(Step(s, evs[0]), evs[1..]))
  }

  function Steps(s: State, evs: seq<Event>): State
    requires Enableds(s, evs)
    decreases |evs|
  {
    if evs == [] then s else Steps(Step(s, evs[0]), evs[1..])
  }

  lemma {:induction false} StepsInv(s: State, evs: seq<Event>)
    requires Inv(s) && Enableds(s, evs)
    ensures Inv(Steps(s, evs)) && Steps(s, evs).max == s.max
    decreases |evs|
  {
    if evs != [] {
      StepInv(s, evs[0]);
      StepsInv(Step(s, evs[0]), evs[1..]);
    }
  }

  lemma InitInv(max: nat)
    ensures Inv(Init(max))
  {
    assert forall id :: Tracked(Init(max), id);
  }

  /** Over any order of response, timeout and close: a callback that was added and whose send did not
      fail runs at most once; once it has left the table and nothing is about to run it, it has run
      exactly once; and while it waits it has not run. */
  lemma CallbackRunsOnce(max: nat, evs: seq<Event>, id: nat)
    requires Enableds(Init(max), evs)
    requires id in Steps(Init(max), evs).added && id !in Steps(Init(max), evs).failed
    ensures var s := Steps(Init(max), evs);
      && s.runs[id] <= 1
      && (s.runs[id] == 1 <==> id !in s.waiting && id !in s.claimed)
  {
    InitInv(max);
    StepsInv(Init(max), evs);
    assert Tracked(Steps(Init(max), evs), id);
  }

  /** A blocking caller's channel gets its response, is taken back by the caller or is closed, just
      one of these, once it is out of the table. */
  lemma ChannelEndsOnce(max: nat, evs: seq<Event>, id: nat)
    requires Enableds(Init(max), evs) && id in Steps(Init(max), evs).channels
    ensures var s := Steps(Init(max), evs);
      One(id in s.chs) + One(id in s.answered) + One(id in s.dropped) + One(id in s.cut) == 1
  {
    InitInv(max);
    StepsInv(Init(max), evs);
    assert Tracked(Steps(Init(max), evs), id);
  }

  /** After closeAll has passed every shard no request waits any more, so every added callback was
      called or is about to be, and every channel was answered, taken back or closed. */
  lemma CloseLeavesNoneWaiting(max: nat, evs: seq<Event>)
    requires Enableds(Init(max), evs)
    requires Steps(Init(max), evs).closed && Steps(Init(max), evs).closeAt == SHARD_COUNT
    ensures var s := Steps(Init(max), evs);
      && s.waiting == s.chs == {}
      && forall id :: id in s.added ==> id in s.claimed || s.runs[id] >= 1
  {
    InitInv(max);
    StepsInv(Init(max), evs);
    var s := Steps(Init(max), evs);
    forall id ensures id !in s.waiting && id !in s.chs && (id in s.added ==> id in s.claimed || s.runs[id] >= 1) {
      assert Tracked(s, id);
      assert Shard(id) < SHARD_COUNT;
    }
  }

  /** The timeouts in a run. */
  function Timeouts(evs: seq<Event>): nat {
    if evs == [] then 0 else (if evs[0].Timeout? then 1 else 0) + Timeouts(evs[1..])
  }

  lemma {:induction false} TimeoutsCounted(s: State, evs: seq<Event>)
    requires Enableds(s, evs)
    ensures Steps(s, evs).timedOut == s.timedOut + Timeouts(evs)
    decreases |evs|
  {
    if evs != [] {
      TimeoutsCounted(Step(s, evs[0]), evs[1..]);
    }
  }

  /** What a run makes of the counter: each reservation adds one, each request that gives its place
      back takes one, and the end of closeAll sets it to 0. */
  function Tally(evs: seq<Event>, before: int): int
    decreases |evs|
  {
    if evs == [] then before
    else
      Tally(evs[1..], match evs[0]
        case Reserve(_) => before + 1
        case Leave => before - 1
        case CloseEnd => 0
        case _ => before)
  }

  lemma {:induction false} CounterIsTally(s: State, evs: seq<Event>)
    requires Enableds(s, evs)
    ensures Steps(s, evs).counter == Tally(evs, s.counter)
    decreases |evs|
  {
    if evs != [] {
      CounterIsTally(Step(s, evs[0]), evs[1..]);
    }
  }

  /** Until closed the counter bounds the live requests, and exceeds the maximum by no more than the
      callers that were between loading the counter and adding to it at once, less one: so not at
      all when callers never overlap. */
  lemma LiveWithinMaximum(max: nat, evs: seq<Event>)
    requires Enableds(Init(max), evs) && !Steps(Init(max), evs).closed
    ensures var s := Steps(Init(max), evs);
      && s.counter == |s.waiting| + |s.chs| + |s.reserved| + s.leaving + Timeouts(evs)
      && |s.waiting| + |s.chs| <= s.counter <= Bound(max, s.peak)
      && (s.peak <= 1 ==> |s.waiting| + |s.chs| <= max)
  {
    TimeoutsCounted(Init(max), evs);
    InitInv(max);
    StepsInv(Init(max), evs);
  }

  /** Timeouts are never given back: when they reach the maximum nothing is accepted again, however
      empty the table is. */
  lemma TimeoutsExhaust(max: nat, evs: seq<Event>)
    requires Enableds(Init(max), evs) && Timeouts(evs) >= max
    ensures Steps(Init(max), evs).closed || !Enabled(Steps(Init(max), evs), Check)
  {
    TimeoutsCounted(Init(max), evs);
    InitInv(max);
    StepsInv(Init(max), evs);
  }

  ghost predicate Reaches(s: State, evs: seq<Event>, t: State) {
    Enableds(s, evs) && Steps(s, evs) == t
  }

  lemma Then(s: State, ev: Event, rest: seq<Event>, t: State)
    requires Enabled(s, ev) && Reaches(Step(s, ev), rest, t)
    ensures Reaches(s, [ev] + rest, t)
  {
    assert ([ev] + rest)[1..] == rest;
  }

  // ---------------------------------------------------------------- the bound is attained

  predicate Between(lo: nat, id: nat, hi: nat) {
    lo <= id < hi
  }

  function Ids(lo: nat, hi: nat): set<nat> {
    set id: nat | id < hi && Between(lo, id, hi)
  }

  /** The first w requests wait and the next p are between load and add. */
  function Crowd(max: nat, w: nat, p: nat, peak: nat): State {
    Init(max).(counter := w, next := w + p, passed := Ids(w, w + p), waiting := Ids(0, w),
               added := Ids(0, w), peak := peak)
  }

  lemma {:induction false} IdsSize(lo: nat, hi: nat)
    requires lo <= hi
    ensures |Ids(lo, hi)| == hi - lo
    decreases hi
  {
    if lo < hi {
      IdsSize(lo, hi - 1);
      IdsNext(lo, hi - 1);
    } else {
      assert Ids(lo, hi) == {};
    }
  }

  lemma {:induction false} Extend(s: State, evs: seq<Event>, t: State, ev: Event)
    requires Reaches(s, evs, t) && Enabled(t, ev)
    ensures Reaches(s, evs + [ev], Step(t, ev))
    decreases |evs|
  {
    if evs == [] {
      assert evs + [ev] == [ev] && [ev][1..] == [];
    } else {
      assert (evs + [ev])[1..] == evs[1..] + [ev];
      Extend(Step(s, evs[0]), evs[1..], t, ev);
    }
  }

  lemma IdsNext(lo: nat, hi: nat)
    requires lo <= hi
    ensures Ids(lo, hi + 1) == Ids(lo, hi) + {hi}
  {
  }

  lemma CrowdGrows(max: nat, w: nat, p: nat, peak: nat)
    requires w < max && p <= peak
    ensures Enabled(Crowd(max, w, p, peak), Check)
    ensures Step(Crowd(max, w, p, peak), Check) == Crowd(max, w, p + 1, if p + 1 > peak then p + 1 else peak)
  {
    IdsNext(w, w + p);
    IdsSize(w, w + p);
    IdsSize(w, w + p + 1);
  }

  /** One more caller finds room. */
  lemma OneChecks(max: nat, evs: seq<Event>, w: nat, p: nat, peak: nat) returns (next: seq<Event>)
    requires w < max && p <= peak && Reaches(Init(max), evs, Crowd(max, w, p, peak))
    ensures Reaches(Init(max), next, Crowd(max, w, p + 1, if p + 1 > peak then p + 1 else peak))
  {
    CrowdGrows(max, w, p, peak);
    Extend(Init(max), evs, Crowd(max, w, p, peak), Check);
    next := evs + [Check];
  }

  /** One of those callers adds itself and enters the table. */
  lemma OneEnters(max: nat, evs: seq<Event>, w: nat, p: nat, peak: nat) returns (next: seq<Event>)
    requires p > 0 && Reaches(Init(max), evs, Crowd(max, w, p, peak))
    ensures Reaches(Init(max), next, Crowd(max, w + 1, p - 1, peak))
  {
    var s := Crowd(max, w, p, peak);
    var t := Entering(max, w, p, peak);
    assert Ids(w, w + p) - {w} == Ids(w + 1, w + p);
    assert Step(s, Reserve(w)) == t;
    LastEnters(max, w, p, peak);
    Extend(Init(max), evs, s, Reserve(w));
    Extend(Init(max), evs + [Reserve(w)], t, Insert(w));
    next := evs + [Reserve(w)] + [Insert(w)];
  }

  /** Of a crowd, caller w has added itself to the counter. */
  function Entering(max: nat, w: nat, p: nat, peak: nat): State {
    Crowd(max, w, p, peak).(passed := Ids(w + 1, w + p), reserved := {w}, counter := w + 1)
  }

  lemma LastEnters(max: nat, w: nat, p: nat, peak: nat)
    requires p > 0
    ensures Step(Entering(max, w, p, peak), Insert(w)) == Crowd(max, w + 1, p - 1, peak)
  {
    assert Ids(0, w) + {w} == Ids(0, w + 1) && {w} - {w} == {};
  }

  /** w callers, one after the other. */
  lemma {:induction false} OneByOne(max: nat, w: nat) returns (evs: seq<Event>)
    requires w <= max
    ensures Reaches(Init(max), evs, Crowd(max, w, 0, if w == 0 then 0 else 1))
    decreases w
  {
    if w == 0 {
      evs := [];
      assert Ids(0, 0) == {};
      assert Crowd(max, 0, 0, 0) == Init(max);
      assert Reaches(Init(max), evs, Init(max));
    } else {
      evs := OneByOne(max, w - 1);
      evs := OneChecks(max, evs, w - 1, 0, if w == 1 then 0 else 1);
      evs := OneEnters(max, evs, w - 1, 1, 1);
    }
  }

  /** Then p callers at once. */
  lemma {:induction false} AllCheck(max: nat, p: nat) returns (evs: seq<Event>)
    requires max > 0 && p > 0
    ensures Reaches(Init(max), evs, Crowd(max, max - 1, p, p))
    decreases p
  {
    if p == 1 {
      evs := OneByOne(max, max - 1);
      evs := OneChecks(max, evs, max - 1, 0, if max == 1 then 0 else 1);
    } else {
      evs := AllCheck(max, p - 1);
      evs := OneChecks(max, evs, max - 1, p - 1, p - 1);
    }
  }

  lemma {:induction false} AllEnter(max: nat, p: nat, k: nat) returns (evs: seq<Event>)
    requires max > 0 && p > 0 && k <= p
    ensures Reaches(Init(max), evs, Crowd(max, max - 1 + k, p - k, p))
    decreases k
  {
    if k == 0 {
      evs := AllCheck(max, p);
    } else {
      evs := AllEnter(max, p, k - 1);
      evs := OneEnters(max, evs, max - 1 + (k - 1), p - (k - 1), p);
    }
  }

  /** Whatever the maximum and however many callers overlap, the bound is attained: so two callers
      already exceed the maximum. */
  lemma OverlapAttainsBound(max: nat, p: nat)
    requires max > 0 && p > 0
    ensures exists evs, t :: Reaches(Init(max), evs, t) && !t.closed && t.peak == p
                             && |t.waiting| == Bound(max, p)
  {
    var evs := AllEnter(max, p, p);
    IdsSize(0, max - 1 + p);
    assert Reaches(Init(max), evs, Crowd(max, max - 1 + p, 0, p));
  }

  /** Two overlapping callers can exceed the maximum. */
  lemma OverlapExceedsMaximum()
    ensures exists evs, t :: Reaches(Init(1), evs, t) && |t.waiting| > 1
  {
    OverlapAttainsBound(1, 2);
  }

  // ---------------------------------------------------------------- failed sends

  lemma {:induction false} WithdrawnInRun(s: State, evs: seq<Event>, id: nat)
    requires Enableds(s, evs)
    ensures id in Steps(s, evs).withdrawn <==> id in s.withdrawn || Withdraw(id) in evs
    decreases |evs|
  {
    if evs != [] {
      WithdrawnInRun(Step(s, evs[0]), evs[1..], id);
      assert evs == [evs[0]] + evs[1..];
    }
  }

  /** A callback whose send failed was run for that failure. Once it has settled it ran just that
      once if and only if delCallback still found it in the table; otherwise it was claimed first
      and ran twice. */
  lemma FailedSendRuns(max: nat, evs: seq<Event>, id: nat)
    requires Enableds(Init(max), evs) && id in Steps(Init(max), evs).failed
    ensures var s := Steps(Init(max), evs);
      && One(id in s.waiting) + One(id in s.claimed) + s.runs[id] + One(Withdraw(id) in evs) == 2
      && (id !in s.waiting && id !in s.claimed ==>
            s.runs[id] == if Withdraw(id) in evs then 1 else 2)
  {
    InitInv(max);
    StepsInv(Init(max), evs);
    WithdrawnInRun(Init(max), evs, id);
    assert Tracked(Steps(Init(max), evs), id);
  }

  /** One request waits, not yet sent. */
  const WAITING := Init(1).(peak := 1, next := 1, counter := 1, waiting := {0}, added := {0})

  lemma ClaimedByClose(rest: seq<Event>, t: State)
    requires Reaches(WAITING.(closed := true, waiting := {}, claimed := {0}, closeAt := 1), rest, t)
    ensures Reaches(WAITING, [CloseStart] + ([CloseShard] + rest), t)
  {
    assert Part({0}, 0) == {0} && {0} - {0} == {} && {} + {0} == {0};
    assert Step(WAITING.(closed := true), CloseShard)
        == WAITING.(closed := true, waiting := {}, claimed := {0}, closeAt := 1);
    Then(WAITING.(closed := true), CloseShard, rest, t);
    Then(WAITING, CloseStart, [CloseShard] + rest, t);
  }

  /** A send that fails after closeAll has claimed the callback runs it a second time. */
  lemma FailedSendRunsTwice()
    ensures exists evs, t :: Reaches(Init(1), evs, t) && t.runs[0] == 2
  {
    var s5 := WAITING.(closed := true, waiting := {}, claimed := {0}, closeAt := 1);
    var s6 := s5.(claimed := {}, runs := multiset{0});
    var t := s6.(failed := {0}, runs := multiset{0, 0});
    assert Step(s5, Run(0)) == s6 && Step(s6, SendFail(0)) == t;
    assert Reaches(t, [], t);
    Then(s6, SendFail(0), [], t);
    Then(s5, Run(0), [SendFail(0)] + [], t);
    ClaimedByClose([Run(0)] + ([SendFail(0)] + []), t);
    ReachWaiting([CloseStart] + ([CloseShard] + ([Run(0)] + ([SendFail(0)] + []))), t);
  }

  lemma ReachWaiting(rest: seq<Event>, t: State)
    requires Reaches(WAITING, rest, t)
    ensures exists evs :: Reaches(Init(1), evs, t)
  {
    var s1 := Init(1).(peak := 1, next := 1, passed := {0});
    var s2 := Init(1).(peak := 1, next := 1, reserved := {0}, counter := 1);
    assert Step(Init(1), Check) == s1 && Step(s1, Reserve(0)) == s2 && Step(s2, Insert(0)) == WAITING;
    Then(s2, Insert(0), rest, t);
    Then(s1, Reserve(0), [Insert(0)] + rest, t);
    Then(Init(1), Check, [Reserve(0)] + ([Insert(0)] + rest), t);
  }
}
