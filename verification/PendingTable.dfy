/** The sharded table of requests that wait for a response: channels for blocking callers, callbacks
    for asynchronous ones, and the counter that limits them. */
module PendingTable {
  import opened Wrappers

  const SHARD_COUNT := 64

  datatype Error = Closed | QueueFull

  function Shard(id: nat): (s: nat)
    ensures s < SHARD_COUNT
  {
    id % SHARD_COUNT
  }

  /** The requests of a set that belong to shard s. */
  function Part(all: set<nat>, s: nat): set<nat> {
    set id | id in all && Shard(id) == s
  }

  lemma PartAdd(all: set<nat>, id: nat)
    ensures forall s :: Part(all + {id}, s) == if s == Shard(id) then Part(all, s) + {id} else Part(all, s)
  {
  }

  lemma PartRemove(all: set<nat>, id: nat)
    ensures forall s :: Part(all - {id}, s) == if s == Shard(id) then Part(all, s) - {id} else Part(all, s)
    ensures |all - {id}| == |all| - if id in all then 1 else 0
  {
    if id !in all {
      assert all - {id} == all;
    }
  }

  /** What is left of a set once the shards below s are cleared. */
  function From(all: set<nat>, s: nat): set<nat> {
    set id | id in all && Shard(id) >= s
  }

  lemma FromNext(all: set<nat>, s: nat)
    ensures forall t: nat :: Part(From(all, s + 1), t) == if t <= s then {} else Part(all, t)
    ensures From(all, s) == From(all, s + 1) + Part(all, s)
  {
    forall t: nat ensures Part(From(all, s + 1), t) == if t <= s then {} else Part(all, t) {
    }
  }

  /** A sharded set: each shard holds its own part. */
  ghost predicate Holds(m: array<set<nat>>, all: set<nat>)
    reads m
  {
    m.Length == SHARD_COUNT && forall s: nat :: s < SHARD_COUNT ==> m[s] == Part(all, s)
  }

  method Put(m: array<set<nat>>, id: nat, ghost all: set<nat>)
    requires Holds(m, all)
    modifies m
    ensures Holds(m, all + {id})
  {
    var s := Shard(id);
    m[s] := m[s] + {id};
    PartAdd(all, id);
  }

  method Drop(m: array<set<nat>>, id: nat, ghost all: set<nat>) returns (had: bool)
    requires Holds(m, all)
    modifies m
    ensures Holds(m, all - {id}) && had == (id in all)
    ensures |all - {id}| == |all| - if had then 1 else 0
  {
    var s := Shard(id);
    had := id in m[s];
    m[s] := m[s] - {id};
    PartRemove(all, id);
  }

  /** Clears shard s of what is left from s on. */
  method Clear(m: array<set<nat>>, s: nat, ghost all: set<nat>) returns (part: set<nat>)
    requires Holds(m, From(all, s)) && s < SHARD_COUNT
    modifies m
    ensures Holds(m, From(all, s + 1)) && part == Part(all, s)
    ensures From(all, s) == From(all, s + 1) + part && From(all, s + 1) !! part
  {
    part := m[s];
    m[s] := {};
    FromNext(all, s);
    assert part == Part(all, s);
    forall t: nat | t < SHARD_COUNT && t != s ensures m[t] == Part(From(all, s + 1), t) {
      assert m[t] == Part(From(all, s), t);
      assert t < s ==> Part(From(all, s), t) == {};
    }
  }

  class PendingMap {
    const maxPendingCount: int
    var curPendingCount: int
    var closed: bool
    const chMap: array<set<nat>>      // per shard, the requests with a waiting channel
    const cbMap: array<set<nat>>      // per shard, the requests with a callback
    ghost var chs: set<nat>
    ghost var cbs: set<nat>
    ghost var timedOut: nat           // callbacks claimed by takeCallback

    constructor (maxPendingCount: int)
      ensures Valid() && chs == cbs == {} && timedOut == 0 && !closed
      ensures this.maxPendingCount == maxPendingCount && fresh(chMap) && fresh(cbMap)
    {
      this.maxPendingCount, this.curPendingCount, this.closed := maxPendingCount, 0, false;
      this.chMap := new set<nat>[SHARD_COUNT](_ => {});
      this.cbMap := new set<nat>[SHARD_COUNT](_ => {});
      this.chs, this.cbs, this.timedOut := {}, {}, 0;
    }

    /** The shards hold each request once, in its own shard. */
    ghost predicate Sharded()
      reads this, chMap, cbMap
    {
      chMap != cbMap && chs !! cbs && Holds(chMap, chs) && Holds(cbMap, cbs)
    }

    /** Until it is closed the counter counts the waiting requests and, for good, every callback
        that a timeout claimed. */
    ghost predicate Valid()
      reads this, chMap, cbMap
    {
      && Sharded()
      && (!closed ==> curPendingCount == |chs| + |cbs| + timedOut)
      && (closed ==> chs == cbs == {})
    }

    /** A callback is accepted exactly while the table is open and the counter below the maximum. */
    method AddCallback(id: nat) returns (err: Option<Error>)
      requires Valid() && id !in chs + cbs
      modifies this, cbMap
      ensures Valid() && chs == old(chs) && timedOut == old(timedOut) && closed == old(closed)
      ensures err == if closed then Some(Closed)
                     else if |chs| + |old(cbs)| + timedOut >= maxPendingCount then Some(QueueFull)
                     else None
      ensures cbs == if err.None? then old(cbs) + {id} else old(cbs)
    {
      if closed {
        return Some(Closed);
      }
      if curPendingCount >= maxPendingCount {
        return Some(QueueFull);
      }
      curPendingCount := curPendingCount + 1;
      Put(cbMap, id, cbs);
      cbs := cbs + {id};
      return None;
    }

    method AddCh(id: nat) returns (err: Option<Error>)
      requires Valid() && id !in chs + cbs
      modifies this, chMap
      ensures Valid() && cbs == old(cbs) && timedOut == old(timedOut) && closed == old(closed)
      ensures err == if closed then Some(Closed)
                     else if |old(chs)| + |cbs| + timedOut >= maxPendingCount then Some(QueueFull)
                     else None
      ensures chs == if err.None? then old(chs) + {id} else old(chs)
    {
      if closed {
        return Some(Closed);
      }
      if curPendingCount >= maxPendingCount {
        return Some(QueueFull);
      }
      curPendingCount := curPendingCount + 1;
      Put(chMap, id, chs);
      chs := chs + {id};
      return None;
    }

    method DelCh(id: nat) returns (removed: bool)
      requires Valid()
      modifies this, chMap
      ensures Valid() && cbs == old(cbs) && timedOut == old(timedOut) && closed == old(closed)
      ensures removed == (id in old(chs)) && chs == old(chs) - {id}
    {
      removed := Drop(chMap, id, chs);
      chs := chs - {id};
      if removed {
        curPendingCount := curPendingCount - 1;
      }
    }

    method DelCallback(id: nat)
      requires Valid()
      modifies this, cbMap
      ensures Valid() && chs == old(chs) && timedOut == old(timedOut) && closed == old(closed)
      ensures cbs == old(cbs) - {id}
    {
      var ok := Drop(cbMap, id, cbs);
      cbs := cbs - {id};
      if ok {
        curPendingCount := curPendingCount - 1;
      }
    }

    /** The timeout's claim: at most one caller gets it, and the counter keeps the place. */
    method TakeCallback(id: nat) returns (ok: bool)
      requires Valid()
      modifies this, cbMap
      ensures Valid() && chs == old(chs) && closed == old(closed)
      ensures ok == (id in old(cbs)) && cbs == old(cbs) - {id}
      ensures timedOut == old(timedOut) + if ok then 1 else 0
      ensures curPendingCount == old(curPendingCount)
    {
      ok := Drop(cbMap, id, cbs);
      cbs := cbs - {id};
      if ok {
        timedOut := timedOut + 1;
      }
    }

    /** A response goes to the one that waits for it, a channel or a callback, and to no one else. */
    method Deliver(id: nat) returns (toCh: bool, toCallback: bool)
      requires Valid()
      modifies this, chMap, cbMap
      ensures Valid() && timedOut == old(timedOut) && closed == old(closed)
      ensures toCh == (id in old(chs)) && toCallback == (id in old(cbs))
      ensures chs == old(chs) - {id} && cbs == old(cbs) - {id}
    {
      toCh := Drop(chMap, id, chs);
      toCallback := Drop(cbMap, id, cbs);
      chs, cbs := chs - {id}, cbs - {id};
      if toCh || toCallback {
        curPendingCount := curPendingCount - 1;
      }
    }

    /** Closes every channel and claims every callback, each once; a second call does nothing. */
    method CloseAll() returns (callbacks: seq<nat>, ghost closedChs: set<nat>)
      requires Valid()
      modifies this, chMap, cbMap
      ensures Valid() && closed
      ensures closedChs == old(chs)
      ensures Enumerates(callbacks, old(cbs))
      ensures !old(closed) ==> curPendingCount == 0
    {
      callbacks, closedChs := [], {};
      if closed {
        return;
      }
      closed := true;
      ghost var c, b := chs, cbs;
      assert From(c, 0) == c && From(b, 0) == b;
      for s := 0 to SHARD_COUNT
        invariant closed && Sharded()
        invariant chs == From(c, s) && cbs == From(b, s)
        invariant closedChs == c - From(c, s)
        invariant Enumerates(callbacks, b - From(b, s))
      {
        callbacks, closedChs := CloseShard(s, c, b, callbacks, closedChs);
      }
      assert From(c, SHARD_COUNT) == From(b, SHARD_COUNT) == {};
      curPendingCount := 0;
    }

    /** One shard of closeAll: its channels are closed, its callbacks claimed. */
    method CloseShard(s: nat, ghost c: set<nat>, ghost b: set<nat>, callbacks: seq<nat>, ghost closedChs: set<nat>)
      returns (callbacks': seq<nat>, ghost closedChs': set<nat>)
      requires s < SHARD_COUNT && Sharded() && c !! b
      requires chs == From(c, s) && cbs == From(b, s)
      requires closedChs == c - From(c, s) && Enumerates(callbacks, b - From(b, s))
      modifies `chs, `cbs, chMap, cbMap
      ensures Sharded() && chs == From(c, s + 1) && cbs == From(b, s + 1)
      ensures closedChs' == c - From(c, s + 1) && Enumerates(callbacks', b - From(b, s + 1))
    {
      var cleared := Clear(chMap, s, c);
      closedChs' := closedChs + cleared;
      var claimed := Clear(cbMap, s, b);
      var more := Listed(claimed);
      Join(callbacks, b - From(b, s), more, claimed);
      assert b - From(b, s + 1) == b - From(b, s) + claimed;
      callbacks' := callbacks + more;
      chs, cbs := From(c, s + 1), From(b, s + 1);
    }
  }

  /** The list holds exactly the members of the set, each once. */
  ghost predicate Enumerates(list: seq<nat>, all: set<nat>) {
    && (forall id :: id in list <==> id in all)
    && forall i, j :: 0 <= i < j < |list| ==> list[i] != list[j]
  }

  lemma Join(a: seq<nat>, all: set<nat>, b: seq<nat>, more: set<nat>)
    requires Enumerates(a, all) && Enumerates(b, more) && all !! more
    ensures Enumerates(a + b, all + more)
  {
    var c := a + b;
    forall i, j | 0 <= i < j < |c| ensures c[i] != c[j] {
      if i < |a| <= j {
        assert c[i] in all && c[j] == b[j - |a|] && c[j] in more;
      } else if |a| <= i {
        assert c[i] == b[i - |a|] && c[j] == b[j - |a|];
      }
    }
    assert forall id :: id in c <==> id in a || id in b;
  }

  /** Some enumeration of a set. */
  method Listed(all: set<nat>) returns (list: seq<nat>)
    ensures Enumerates(list, all)
  {
    list := [];
    var rest := all;
    while rest != {}
      invariant rest <= all && Enumerates(list, all - rest)
      decreases |rest|
    {
      var id :| id in rest;
      Join(list, all - rest, [id], {id});
      assert all - (rest - {id}) == all - rest + {id};
      list := list + [id];
      rest := rest - {id};
    }
    assert all - rest == all;
  }
}
