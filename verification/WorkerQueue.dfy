/** The bounded-concurrency worker queue over the deque, and its runs: callers pushing jobs while
    workers finish theirs, in any order. */
module WorkerQueue {
  import opened Wrappers
  import opened Deque

  type Job = nat

  /** What the lock protects: the waiting jobs and the number of busy slots. */
  datatype Shared = Shared(waiting: seq<Job>, cur: int)

  /** getJob: queue the new job if there is one, add delta to the busy slots, and take the first
      waiting job when a slot is free. */
  function GetJob(s: Shared, max: int, newJob: Option<Job>, delta: int): (Shared, Option<Job>) {
    var t := Shared(Queued(s.waiting, newJob), s.cur + delta);
    (AfterGiving(t, max), if MayGive(t, max) then Some(t.waiting[0]) else None)
  }

  function Queued(waiting: seq<Job>, newJob: Option<Job>): seq<Job> {
    if newJob.Some? then waiting + [newJob.value] else waiting
  }

  /** A job waits and a slot is free. */
  predicate MayGive(s: Shared, max: int) {
    s.cur < max && s.waiting != []
  }

  function AfterGiving(s: Shared, max: int): Shared {
    if MayGive(s, max) then Shared(s.waiting[1..], s.cur + 1) else s
  }

  class Queue {
    const q: Deque<Option<Job>>
    const maxConcurrency: int
    var curConcurrency: int

    ghost predicate Valid()
      reads this, q
    {
      && q.Valid() && q.template.value == None
      && forall v :: v in q.Contents() ==> v.Some?
    }

    ghost function State(): (s: Shared)
      requires Valid()
      reads this, q
    {
      Shared(Jobs(q.Contents()), curConcurrency)
    }

    constructor (maxConcurrency: int)
      ensures Valid() && State() == Shared([], 0) && fresh(q)
      ensures this.maxConcurrency == if maxConcurrency < 1 then 1 else maxConcurrency
    {
      q := new Deque<Option<Job>>.Zero(None);
      this.maxConcurrency := if maxConcurrency < 1 then 1 else maxConcurrency;
      curConcurrency := 0;
    }

    method GetJobM(newJob: Option<Job>, delta: int) returns (job: Option<Job>)
      requires Valid()
      modifies this, q
      ensures Valid()
      ensures (State(), job) == GetJob(old(State()), maxConcurrency, newJob, delta)
    {
      Enqueue(newJob);
      Count(delta);
      job := FirstJob();
    }

    method Enqueue(newJob: Option<Job>)
      requires Valid()
      modifies q
      ensures Valid() && State() == Shared(Queued(old(State()).waiting, newJob), old(curConcurrency))
    {
      if newJob.None? {
        return;
      }
      PushJob(newJob);
    }

    /** The first waiting job, when a slot is free for it. */
    method FirstJob() returns (job: Option<Job>)
      requires Valid()
      modifies this, q
      ensures Valid()
      ensures var s := old(State());
        && State() == AfterGiving(s, maxConcurrency)
        && job == (if MayGive(s, maxConcurrency) then Some(s.waiting[0]) else None)
    {
      if curConcurrency >= maxConcurrency {
        return None;
      }
      job := PopJob();
      if job.None? {
        return;
      }
      Count(1);
    }

    /** atomic.AddInt32 on the busy slots. */
    method Count(delta: int)
      requires Valid()
      modifies `curConcurrency
      ensures Valid() && State() == Shared(old(State()).waiting, old(curConcurrency) + delta)
    {
      curConcurrency := curConcurrency + delta;
    }

    method PushJob(job: Option<Job>)
      requires Valid() && job.Some?
      modifies q
      ensures Valid() && State() == Shared(old(State()).waiting + [job.value], old(curConcurrency))
    {
      ghost var before := q.Contents();
      var a := q.PushBack(job);
      assert q.Contents() == before + [job];
      JobsAppend(before, job);
    }

    method PopJob() returns (job: Option<Job>)
      requires Valid()
      modifies q
      ensures Valid()
      ensures var w := old(State().waiting);
        && job == (if w == [] then None else Some(w[0]))
        && State() == Shared(if w == [] then [] else w[1..], old(curConcurrency))
    {
      ghost var before := q.Contents();
      job := q.PopFront();
      if before != [] {
        assert q.Contents() == before[1..];
        assert before[0] in before;
      } else {
        assert q.Contents() == [];
      }
    }
  }

  ghost function Jobs(vs: seq<Option<Job>>): (js: seq<Job>)
    requires forall v :: v in vs ==> v.Some?
    ensures |js| == |vs| && forall i :: 0 <= i < |vs| ==> vs[i] == Some(js[i])
  {
    if vs == [] then [] else
    assert vs[0] in vs;
    [vs[0].value] + Jobs(vs[1..])
  }

  lemma JobsAppend(vs: seq<Option<Job>>, v: Option<Job>)
    requires (forall x :: x in vs ==> x.Some?) && v.Some?
    ensures forall x :: x in vs + [v] ==> x.Some?
    ensures Jobs(vs + [v]) == Jobs(vs) + [v.value]
  {
    assert forall i :: 0 <= i < |vs| ==> Some(Jobs(vs + [v])[i]) == Some(Jobs(vs)[i]);
  }

  // ---------------------------------------------------------------- runs

  /** A slot's goroutine has been given a job, or is inside it. */
  datatype Phase = Given(job: Job) | Running(job: Job)

  /** `pushed`, `given` and `started` are the history: jobs in the order they were pushed, handed
      to a slot and begun. */
  datatype State = State(shared: Shared, workers: map<nat, Phase>, pushed: seq<Job>, given: seq<Job>, started: seq<Job>)

  const START := State(Shared([], 0), map[], [], [], [])

  datatype Event =
    | Push(job: Job, worker: nat)   // Push; a new goroutine `worker` when getJob returns a job
    | Begin(worker: nat)            // the goroutine calls its job
    | End(worker: nat)              // the job returns; getJob(nil, -1)

  ghost predicate Next(s: State, max: int, ev: Event, s': State) {
    match ev
    case Push(job, w) =>
      var (sh, got) := GetJob(s.shared, max, Some(job), 0);
      && w !in s.workers
      && s' == s.(shared := sh, pushed := s.pushed + [job],
                  workers := if got.Some? then s.workers[w := Given(got.value)] else s.workers,
                  given := if got.Some? then s.given + [got.value] else s.given)
    case Begin(w) =>
      && w in s.workers && s.workers[w].Given?
      && s' == s.(workers := s.workers[w := Running(s.workers[w].job)], started := s.started + [s.workers[w].job])
    case End(w) =>
      var (sh, got) := GetJob(s.shared, max, None, -1);
      && w in s.workers && s.workers[w].Running?
      && s' == s.(shared := sh,
                  workers := if got.Some? then s.workers[w := Given(got.value)] else s.workers - {w},
                  given := if got.Some? then s.given + [got.value] else s.given)
  }

  ghost predicate Inv(s: State, max: int) {
    && Counted(s, max)
    && multiset(s.given) == multiset(s.started) + GivenJobs(s.workers)
    && (max == 1 ==> SerialInv(s))
  }

  /** Busy slots are counted and bounded, jobs wait only when all are busy, and leave in order. */
  ghost predicate Counted(s: State, max: int) {
    && |s.workers| == s.shared.cur <= max
    && (s.shared.waiting != [] ==> s.shared.cur == max)
    && s.pushed == s.given + s.shared.waiting
  }

  /** With one slot: everything handed out has begun, but for the job the slot is about to begin. */
  ghost predicate SerialInv(s: State) {
    && (forall w, w' :: w in s.workers && w' in s.workers ==> w == w')
    && (if exists w :: w in s.workers && s.workers[w].Given?
        then |s.given| == |s.started| + 1 && s.started == s.given[..|s.started|]
          && forall w :: w in s.workers ==> s.workers[w] == Given(s.given[|s.started|])
        else s.started == s.given)
  }

  /** The jobs handed to a slot but not begun. */
  ghost function GivenJobs(ws: map<nat, Phase>): multiset<Job>
    decreases |ws|
  {
    if ws == map[] then multiset{}
    else
      var w :| w in ws;
      Smaller(ws, w);
      (if ws[w].Given? then multiset{ws[w].job} else multiset{}) + GivenJobs(ws - {w})
  }

  lemma Smaller(ws: map<nat, Phase>, w: nat)
    requires w in ws
    ensures |ws - {w}| == |ws| - 1
  {
    assert (ws - {w}).Keys == ws.Keys - {w};
    assert |ws.Keys| == |ws| && |(ws - {w}).Keys| == |ws - {w}|;
  }

  ghost function JobOf(p: Phase): multiset<Job> {
    if p.Given? then multiset{p.job} else multiset{}
  }

  lemma {:induction false} GivenSplit(ws: map<nat, Phase>, w: nat)
    requires w in ws
    ensures GivenJobs(ws) == JobOf(ws[w]) + GivenJobs(ws - {w})
    decreases |ws|
  {
    var x :| x in ws && GivenJobs(ws) == JobOf(ws[x]) + GivenJobs(ws - {x});
    if x != w {
      Smaller(ws, x);
      Smaller(ws, w);
      GivenSplit(ws - {x}, w);
      GivenSplit(ws - {w}, x);
      assert ws - {x} - {w} == ws - {w} - {x};
    }
  }

  lemma GivenUpdate(ws: map<nat, Phase>, w: nat, p: Phase)
    ensures GivenJobs(ws[w := p]) == JobOf(p) + GivenJobs(ws - {w})
    ensures w !in ws ==> ws - {w} == ws
    ensures |ws[w := p]| == |ws| + if w in ws then 0 else 1
  {
    GivenSplit(ws[w := p], w);
    assert ws[w := p] - {w} == ws - {w};
    UpdateSize(ws, w, p);
    if w !in ws {
      assert ws - {w} == ws;
    }
  }

  lemma UpdateSize(ws: map<nat, Phase>, w: nat, p: Phase)
    ensures |ws[w := p]| == |ws| + if w in ws then 0 else 1
  {
    assert ws[w := p].Keys == ws.Keys + {w};
    assert |ws.Keys| == |ws| && |ws[w := p].Keys| == |ws[w := p]|;
  }

  lemma NextInv(s: State, max: int, ev: Event, s': State)
    requires max >= 1 && Inv(s, max) && Next(s, max, ev, s')
    ensures Inv(s', max)
  {
    match ev
    case Push(job, w) =>
      PushInv(s, max, job, w, s');
      if max == 1 {
        PushSerial(s, job, w, s');
      }
    case Begin(w) =>
      BeginInv(s, max, w, s');
      if max == 1 {
        BeginSerial(s, w, s');
      }
    case End(w) =>
      EndInv(s, max, w, s');
      if max == 1 {
        EndSerial(s, w, s');
      }
  }

  lemma PushInv(s: State, max: int, job: Job, w: nat, s': State)
    requires max >= 1 && Inv(s, max) && Next(s, max, Push(job, w), s')
    ensures Counted(s', max) && multiset(s'.given) == multiset(s'.started) + GivenJobs(s'.workers)
  {
    if s.shared.cur < max {
      assert s.shared.waiting == [] && s.shared.waiting + [job] == [job];
      GivenUpdate(s.workers, w, Given(job));
      assert s'.shared.waiting == [] && s'.given == s.given + [job];
    }
  }

  lemma BeginInv(s: State, max: int, w: nat, s': State)
    requires max >= 1 && Inv(s, max) && Next(s, max, Begin(w), s')
    ensures Counted(s', max) && multiset(s'.given) == multiset(s'.started) + GivenJobs(s'.workers)
  {
    GivenUpdate(s.workers, w, Running(s.workers[w].job));
    GivenSplit(s.workers, w);
  }

  lemma EndInv(s: State, max: int, w: nat, s': State)
    requires max >= 1 && Inv(s, max) && Next(s, max, End(w), s')
    ensures Counted(s', max) && multiset(s'.given) == multiset(s'.started) + GivenJobs(s'.workers)
  {
    GivenSplit(s.workers, w);
    if s.shared.waiting == [] {
      Smaller(s.workers, w);
    } else {
      EndTakes(s, max, w, s', s.shared.waiting[0], s.shared.waiting[1..]);
    }
  }

  lemma EndTakes(s: State, max: int, w: nat, s': State, job: Job, rest: seq<Job>)
    requires |s.workers| == s.shared.cur == max && w in s.workers && s.workers[w].Running?
    requires s.shared.waiting == [job] + rest && s.pushed == s.given + s.shared.waiting
    requires multiset(s.given) == multiset(s.started) + GivenJobs(s.workers)
    requires GivenJobs(s.workers) == GivenJobs(s.workers - {w})
    requires s' == s.(shared := Shared(rest, s.shared.cur), workers := s.workers[w := Given(job)],
                      given := s.given + [job])
    ensures Counted(s', max) && multiset(s'.given) == multiset(s'.started) + GivenJobs(s'.workers)
  {
    GivenUpdate(s.workers, w, Given(job));
  }

  lemma PushSerial(s: State, job: Job, w: nat, s': State)
    requires Inv(s, 1) && Next(s, 1, Push(job, w), s')
    ensures SerialInv(s')
  {
    if s.shared.cur < 1 {
      assert |s.workers.Keys| == |s.workers|;
      assert s.workers == map[] && s.started == s.given;
      assert s'.workers == map[w := Given(job)] && s'.given == s.given + [job];
      assert s'.workers[w].Given?;
    } else {
      assert s'.workers == s.workers;
    }
  }

  lemma BeginSerial(s: State, w: nat, s': State)
    requires Inv(s, 1) && Next(s, 1, Begin(w), s')
    ensures SerialInv(s')
  {
    assert s.workers[w] == Given(s.given[|s.started|]);
    assert s'.started == s.given;
  }

  lemma EndSerial(s: State, w: nat, s': State)
    requires Inv(s, 1) && Next(s, 1, End(w), s')
    ensures SerialInv(s')
  {
    assert forall v :: v in s.workers ==> v == w;
    assert s.started == s.given;
    if s.shared.waiting != [] {
      assert s'.workers[w].Given?;
      assert s'.given == s.given + [s.shared.waiting[0]];
    }
  }

  ghost predicate Run(states: seq<State>, max: int, evs: seq<Event>) {
    && |states| == |evs| + 1 && states[0] == START
    && forall i :: 0 <= i < |evs| ==> Next(states[i], max, evs[i], states[i + 1])
  }

  lemma {:induction false} RunInv(states: seq<State>, max: int, evs: seq<Event>, i: nat)
    requires max >= 1 && Run(states, max, evs) && i < |states|
    ensures Inv(states[i], max)
  {
    if i > 0 {
      RunInv(states, max, evs, i - 1);
      NextInv(states[i - 1], max, evs[i - 1], states[i]);
    }
  }

  /** In every reachable state: the busy slots are counted and bounded; jobs wait only while all
      slots are busy; jobs are handed out in push order, each once; and each started job was handed
      out, no more often than it was pushed. */
  lemma SchedulerIsFair(states: seq<State>, max: int, evs: seq<Event>, i: nat)
    requires max >= 1 && Run(states, max, evs) && i < |states|
    ensures var s := states[i];
      && Inv(s, max)
      && |s.workers| == s.shared.cur <= max
      && (s.shared.waiting != [] ==> |s.workers| == max)
      && s.given <= s.pushed
      && multiset(s.started) <= multiset(s.given)
  {
    RunInv(states, max, evs, i);
  }

  /** With one slot, jobs begin in push order and never overlap. */
  lemma OneSlotIsSerial(states: seq<State>, evs: seq<Event>, i: nat)
    requires Run(states, 1, evs) && i < |states|
    ensures states[i].started <= states[i].pushed
    ensures forall w, w' :: w in states[i].workers && w' in states[i].workers ==> w == w'
  {
    SchedulerIsFair(states, 1, evs, i);
    var s := states[i];
    assert s.started <= s.given;
  }

  /** When no goroutine is left, every pushed job has been started. */
  lemma IdleMeansAllStarted(states: seq<State>, max: int, evs: seq<Event>, i: nat)
    requires max >= 1 && Run(states, max, evs) && i < |states| && states[i].workers == map[]
    ensures multiset(states[i].started) == multiset(states[i].pushed)
  {
    SchedulerIsFair(states, max, evs, i);
  }
}
