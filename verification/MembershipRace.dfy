/** The discovery's two records of a member, interleaved: the manager's list and the time of the
    last update are changed in two critical sections, and the statistics in a third step, while
    heartbeats, leave messages and the timeout sweep run on goroutines of their own. */
module MembershipRace {
  import opened Membership

  /** `adding` counts the heartbeats that have been through the manager and not yet stamped the
      time, `removing` the removals that have taken a member out of the manager and not yet its
      time; `collected` is what the sweep found stale and has yet to remove. `owedAdds` and
      `owedRemovals` are statistics still to be counted. */
  datatype State = State(
    members: set<Name>, times: map<Name, int>, now: int,
    adding: multiset<Name>, removing: multiset<Name>, collected: set<Name>,
    owedAdds: nat, owedRemovals: nat, added: nat, removed: nat)

  const START := State({}, map[], 0, multiset{}, multiset{}, {}, 0, 0, 0, 0)

  datatype Event =
    | Add(id: Name)                // memberMgr.AddMember
    | Stamp(id: Name)              // memberTimes[id] = now
    | CountAdd                     // stats.AddMember
    | Remove(id: Name)             // memberMgr.RemoveMember, for a leave message
    | Forget(id: Name)             // delete(memberTimes, id)
    | CountRemove                  // stats.RemoveMember
    | Collect(timeout: int)        // the sweep's look at the times
    | Sweep(id: Name)              // memberMgr.RemoveMember, for a collected id
    | Pass(to: int)

  predicate Enabled(s: State, ev: Event) {
    match ev
    case Add(_) => true
    case Stamp(id) => id in s.adding
    case CountAdd => s.owedAdds > 0
    case Remove(_) => true
    case Forget(id) => id in s.removing
    case CountRemove => s.owedRemovals > 0
    case Collect(_) => s.collected == {}
    case Sweep(id) => id in s.collected
    case Pass(to) => s.now <= to
  }

  function Stale(s: State, timeout: int): set<Name> {
    set id | id in s.times && s.now - s.times[id] > timeout
  }

  /** removeMember's first half: nothing for the empty id and for one that is no member. */
  function Removed(s: State, id: Name): State {
    if id == NO_NAME || id !in s.members then s
    else s.(members := s.members - {id}, removing := s.removing + multiset{id},
            owedRemovals := s.owedRemovals + 1)
  }

  function Step(s: State, ev: Event): State
    requires Enabled(s, ev)
  {
    match ev
    case Add(id) =>
      s.(members := s.members + {id}, adding := s.adding + multiset{id},
         owedAdds := if id in s.members then s.owedAdds else s.owedAdds + 1)
    case Stamp(id) => s.(times := s.times[id := s.now], adding := s.adding - multiset{id})
    case CountAdd => s.(owedAdds := s.owedAdds - 1, added := s.added + 1)
    case Remove(id) => Removed(s, id)
    case Forget(id) => s.(times := s.times - {id}, removing := s.removing - multiset{id})
    case CountRemove => s.(owedRemovals := s.owedRemovals - 1, removed := s.removed + 1)
    case Collect(timeout) => s.(collected := Stale(s, timeout))
    case Sweep(id) => Removed(s.(collected := s.collected - {id}), id)
    case Pass(to) => s.(now := to)
  }

  /** The sweep's look finds exactly the members silent for longer than the timeout. */
  lemma CollectsSilent(s: State, timeout: int, id: Name)
    requires Enabled(s, Collect(timeout))
    ensures id in Step(s, Collect(timeout)).collected <==> id in s.times && s.times[id] + timeout < s.now
  {
  }

  predicate Enableds(s: State, evs: seq<Event>)
    decreases |evs|
  {
    evs == [] || (Enabled(s, evs[0]) && Enableds(Step(s, evs[0]), evs[1..]))
  }

  function Steps(s: State, evs: seq<Event>): State
    requires Enableds(s, evs)
    decreases |evs|
  {
    if evs == [] then s else Steps(Step(s, evs[0]), evs[1..])
  }

  ghost predicate Reaches(s: State, evs: seq<Event>, t: State) {
    Enableds(s, evs) && Steps(s, evs) == t
  }

  lemma Then(s: State, ev: Event, rest: seq<Event>, t: State)
    requires Enabled(s, ev) && Reaches(Step(s, ev), rest, t)
    ensures Reaches(s, [ev] + rest, t)
  {
    assert ([ev] + rest)[1..] == rest;
  }

  // ---------------------------------------------------------------- the statistics

  lemma {:induction false} StatisticsAgree(s: State, evs: seq<Event>)
    requires Enableds(s, evs)
    requires s.added + s.owedAdds == s.removed + s.owedRemovals + |s.members|
    ensures var t := Steps(s, evs);
      t.added + t.owedAdds == t.removed + t.owedRemovals + |t.members|
    decreases |evs|
  {
    if evs != [] {
      StatisticsAgree(Step(s, evs[0]), evs[1..]);
    }
  }

  /** However the calls interleave, once everything owed is counted, the members are those added
      less those removed. */
  lemma CountsAreMembers(evs: seq<Event>)
    requires Enableds(START, evs)
    ensures var t := Steps(START, evs);
      t.owedAdds == t.owedRemovals == 0 ==> t.added - t.removed == |t.members|
  {
    StatisticsAgree(START, evs);
  }

  // ---------------------------------------------------------------- when the records agree

  predicate Agree(s: State, id: Name) {
    id in s.members <==> id in s.times
  }

  /** Whether the last thing the manager was told about the id is that it is there. */
  function LastInManager(evs: seq<Event>, id: Name, before: bool): bool
    decreases |evs|
  {
    if evs == [] then before
    else
      LastInManager(evs[1..], id,
        if evs[0] == Add(id) then true
        else if (evs[0] == Remove(id) || evs[0] == Sweep(id)) && id != NO_NAME then false
        else before)
  }

  /** Whether the last thing done to the id's time is that it was stamped. */
  function LastInTimes(evs: seq<Event>, id: Name, before: bool): bool
    decreases |evs|
  {
    if evs == [] then before
    else
      LastInTimes(evs[1..], id,
        if evs[0] == Stamp(id) then true else if evs[0] == Forget(id) then false else before)
  }

  lemma {:induction false} ManagerFollows(s: State, evs: seq<Event>, id: Name)
    requires Enableds(s, evs)
    ensures id in Steps(s, evs).members <==> LastInManager(evs, id, id in s.members)
    decreases |evs|
  {
    if evs != [] {
      ManagerFollows(Step(s, evs[0]), evs[1..], id);
    }
  }

  lemma {:induction false} TimesFollow(s: State, evs: seq<Event>, id: Name)
    requires Enableds(s, evs)
    ensures id in Steps(s, evs).times <==> LastInTimes(evs, id, id in s.times)
    decreases |evs|
  {
    if evs != [] {
      TimesFollow(Step(s, evs[0]), evs[1..], id);
    }
  }

  /** The exact condition, over any run: the records agree about an id if and only if the last first
      half and the last second half that concern it are of the same kind, both of a heartbeat or
      both of a removal. */
  lemma AgreeIffSameOrder(evs: seq<Event>, id: Name)
    requires Enableds(START, evs)
    ensures Agree(Steps(START, evs), id)
       <==> LastInManager(evs, id, false) == LastInTimes(evs, id, false)
  {
    ManagerFollows(START, evs, id);
    TimesFollow(START, evs, id);
  }

  /** Heartbeats and removals of the same id do not overlap. */
  predicate Apart(s: State, ev: Event) {
    match ev
    case Add(id) => id !in s.removing
    case Remove(id) => id !in s.adding
    case Sweep(id) => id !in s.adding
    case _ => true
  }

  predicate AllApart(s: State, evs: seq<Event>)
    requires Enableds(s, evs)
    decreases |evs|
  {
    evs == [] || (Apart(s, evs[0]) && AllApart(Step(s, evs[0]), evs[1..]))
  }

  ghost predicate Serial(s: State, id: Name) {
    && (id in s.adding ==> id in s.members && id !in s.removing)
    && (id in s.removing ==> id !in s.members && s.removing[id] == 1)
    && (id !in s.adding && id !in s.removing ==> Agree(s, id))
  }

  lemma {:induction false} StaysSerial(s: State, evs: seq<Event>, id: Name)
    requires Enableds(s, evs) && AllApart(s, evs) && Serial(s, id)
    ensures Serial(Steps(s, evs), id)
    decreases |evs|
  {
    if evs != [] {
      StaysSerial(Step(s, evs[0]), evs[1..], id);
    }
  }

  /** While heartbeats and removals of an id do not overlap, its records agree whenever none of them
      is under way. */
  lemma ApartAgrees(evs: seq<Event>, id: Name)
    requires Enableds(START, evs) && AllApart(START, evs)
    requires id !in Steps(START, evs).adding && id !in Steps(START, evs).removing
    ensures Agree(Steps(START, evs), id)
  {
    StaysSerial(START, evs, id);
  }

  // ---------------------------------------------------------------- what goes wrong otherwise

  /** Nothing is under way. */
  predicate Quiet(s: State) {
    s.adding == s.removing == multiset{} && s.collected == {} && s.owedAdds == s.owedRemovals == 0
  }

  const NODE := Name("n")

  /** One member, heard of at time 0 and counted. */
  const ALONE := START.(members := {NODE}, times := map[NODE := 0], added := 1)

  lemma ReachAlone(rest: seq<Event>, t: State)
    requires Reaches(ALONE, rest, t)
    ensures exists evs :: Reaches(START, evs, t)
  {
    var s1 := START.(members := {NODE}, adding := multiset{NODE}, owedAdds := 1);
    var s2 := s1.(times := map[NODE := 0], adding := multiset{});
    assert Step(START, Add(NODE)) == s1 && Step(s1, Stamp(NODE)) == s2 && Step(s2, CountAdd) == ALONE;
    Then(s2, CountAdd, rest, t);
    Then(s1, Stamp(NODE), [CountAdd] + rest, t);
    Then(START, Add(NODE), [Stamp(NODE)] + ([CountAdd] + rest), t);
  }

  /** A heartbeat around a removal: a time without a member is left when all is done. */
  lemma OrphanTime()
    ensures exists evs, t :: Reaches(START, evs, t) && Quiet(t) && NODE !in t.members && NODE in t.times
  {
    var s1 := ALONE.(adding := multiset{NODE});
    var s2 := s1.(members := {}, removing := multiset{NODE}, owedRemovals := 1);
    var s3 := s2.(times := map[], removing := multiset{});
    var s4 := s3.(owedRemovals := 0, removed := 1);
    var t := s4.(times := map[NODE := 0], adding := multiset{});
    assert Step(ALONE, Add(NODE)) == s1 && Step(s1, Remove(NODE)) == s2;
    assert s2.times - {NODE} == map[];
    assert Step(s2, Forget(NODE)) == s3 && Step(s3, CountRemove) == s4 && Step(s4, Stamp(NODE)) == t;
    assert Reaches(t, [], t);
    Then(s4, Stamp(NODE), [], t);
    Then(s3, CountRemove, [Stamp(NODE)] + [], t);
    Then(s2, Forget(NODE), [CountRemove] + ([Stamp(NODE)] + []), t);
    Then(s1, Remove(NODE), [Forget(NODE)] + ([CountRemove] + ([Stamp(NODE)] + [])), t);
    Then(ALONE, Add(NODE), [Remove(NODE)] + ([Forget(NODE)] + ([CountRemove] + ([Stamp(NODE)] + []))), t);
    ReachAlone([Add(NODE)] + ([Remove(NODE)] + ([Forget(NODE)] + ([CountRemove] + ([Stamp(NODE)] + [])))), t);
  }

  /** No sweep ever takes such a time away: only a heartbeat can change it. */
  lemma {:induction false} OrphanTimeStays(s: State, evs: seq<Event>, id: Name)
    requires Enableds(s, evs) && id !in s.members && id in s.times && id !in s.removing && id !in s.adding
    requires Add(id) !in evs
    ensures id !in Steps(s, evs).members && id in Steps(s, evs).times
    ensures Steps(s, evs).times[id] == s.times[id]
    decreases |evs|
  {
    if evs != [] {
      assert evs[0] in evs;
      OrphanTimeStays(Step(s, evs[0]), evs[1..], id);
    }
  }

  /** A removal around a heartbeat: a member without a time is left. */
  lemma TimelessMember()
    ensures exists evs, t :: Reaches(START, evs, t) && t.adding == t.removing == multiset{}
                             && NODE in t.members && NODE !in t.times
  {
    var s1 := ALONE.(members := {}, removing := multiset{NODE}, owedRemovals := 1);
    var s2 := s1.(members := {NODE}, adding := multiset{NODE}, owedAdds := 1);
    var s3 := s2.(adding := multiset{});
    var t := s3.(times := map[], removing := multiset{});
    assert Step(ALONE, Remove(NODE)) == s1 && Step(s1, Add(NODE)) == s2;
    assert s2.times[NODE := 0] == s2.times && s3.times - {NODE} == map[];
    assert Step(s2, Stamp(NODE)) == s3 && Step(s3, Forget(NODE)) == t;
    assert Reaches(t, [], t);
    Then(s3, Forget(NODE), [], t);
    Then(s2, Stamp(NODE), [Forget(NODE)] + [], t);
    Then(s1, Add(NODE), [Stamp(NODE)] + ([Forget(NODE)] + []), t);
    Then(ALONE, Remove(NODE), [Add(NODE)] + ([Stamp(NODE)] + ([Forget(NODE)] + [])), t);
    ReachAlone([Remove(NODE)] + ([Add(NODE)] + ([Stamp(NODE)] + ([Forget(NODE)] + []))), t);
  }

  /** However much time passes, no sweep removes such a member: only a leave message or a further
      heartbeat can. */
  lemma {:induction false} TimelessMemberStays(s: State, evs: seq<Event>, id: Name)
    requires Enableds(s, evs) && id in s.members && id !in s.times && id !in s.adding && id !in s.collected
    requires Add(id) !in evs && Remove(id) !in evs
    ensures id in Steps(s, evs).members && id !in Steps(s, evs).times
    decreases |evs|
  {
    if evs != [] {
      assert evs[0] in evs;
      TimelessMemberStays(Step(s, evs[0]), evs[1..], id);
    }
  }

  /** A member the sweep has collected is removed although it was heard of since. */
  lemma FreshMemberRemoved(timeout: nat)
    ensures exists evs, t :: Reaches(START, evs, t) && NODE !in t.members
                             && NODE in t.times && t.times[NODE] == t.now
  {
    var late := timeout + 1;
    var s1 := ALONE.(now := late);
    var s2 := s1.(collected := {NODE});
    var s3 := s2.(adding := multiset{NODE});
    var s4 := s3.(times := map[NODE := late], adding := multiset{});
    var t := s4.(members := {}, removing := multiset{NODE}, collected := {}, owedRemovals := 1);
    assert Step(ALONE, Pass(late)) == s1;
    assert Stale(s1, timeout) == {NODE};
    assert Step(s1, Collect(timeout)) == s2 && Step(s2, Add(NODE)) == s3;
    assert Step(s3, Stamp(NODE)) == s4 && Step(s4, Sweep(NODE)) == t;
    assert Reaches(t, [], t);
    Then(s4, Sweep(NODE), [], t);
    Then(s3, Stamp(NODE), [Sweep(NODE)] + [], t);
    Then(s2, Add(NODE), [Stamp(NODE)] + ([Sweep(NODE)] + []), t);
    Then(s1, Collect(timeout), [Add(NODE)] + ([Stamp(NODE)] + ([Sweep(NODE)] + [])), t);
    Then(ALONE, Pass(late), [Collect(timeout)] + ([Add(NODE)] + ([Stamp(NODE)] + ([Sweep(NODE)] + []))), t);
    ReachAlone([Pass(late)] + ([Collect(timeout)] + ([Add(NODE)] + ([Stamp(NODE)] + ([Sweep(NODE)] + [])))), t);
  }
}
