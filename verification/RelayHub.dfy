/** The relay hub's sessions: a node that connects again takes over from its old session, whose
    close may come later and must not evict its successor. */
module RelayHub {
  import opened Wrappers

  /** Sessions are identified by their connection. An empty nodeID means "not registered". */
  datatype Table = Table(nodes: map<string, nat>, nodeID: map<nat, string>)

  const EMPTY := Table(map[], map[])

  /** Every table entry points back: its session is open and registered under that name. */
  ghost predicate Inv(s: Table) {
    && "" !in s.nodes
    && forall n :: n in s.nodes ==> s.nodes[n] in s.nodeID && s.nodeID[s.nodes[n]] == n
  }

  function Bound(s: Table, c: nat, n: string): Table
    requires c in s.nodeID
  {
    Table(s.nodes[n := c], s.nodeID[c := n])
  }

  function Closed(s: Table, c: nat): Table {
    if c !in s.nodeID then s
    else if s.nodeID[c] in s.nodes && s.nodes[s.nodeID[c]] == c then
      Table(s.nodes - {s.nodeID[c]}, s.nodeID - {c})
    else
      s.(nodeID := s.nodeID - {c})
  }

  /** Session c holds an entry under another name than n. */
  predicate Serves(s: Table, c: nat, n: string)
    requires c in s.nodeID
  {
    s.nodeID[c] != n && s.nodeID[c] in s.nodes && s.nodes[s.nodeID[c]] == c
  }

  /** Registering under a second name leaves the first entry behind, pointing at a session that no
      longer answers to it; nothing else breaks the table. */
  lemma BoundInv(s: Table, c: nat, n: string)
    requires Inv(s) && c in s.nodeID && n != ""
    ensures Inv(Bound(s, c, n)) <==> !Serves(s, c, n)
  {
    var t := Bound(s, c, n);
    if Serves(s, c, n) {
      assert t.nodes[s.nodeID[c]] == c && t.nodeID[c] == n;
    } else {
      forall m | m in t.nodes ensures t.nodes[m] in t.nodeID && t.nodeID[t.nodes[m]] == m {
        assert m != n ==> s.nodes[m] != c;
      }
    }
  }

  class Hub {
    var nodes: map<string, nat>
    var byConn: set<nat>
    var nodeIDs: map<nat, string>
    var closing: set<nat>             // superseded sessions whose connection is being closed

    constructor ()
      ensures Valid() && State() == EMPTY && byConn == {}
    {
      nodes, byConn, nodeIDs, closing := map[], {}, map[], {};
    }

    ghost function State(): Table
      reads this
    {
      Table(nodes, map c | c in byConn && c in nodeIDs :: nodeIDs[c])
    }

    lemma StateIs()
      requires byConn == nodeIDs.Keys
      ensures State() == Table(nodes, nodeIDs)
    {
    }

    ghost predicate Valid()
      reads this
    {
      Aligned() && Inv(State())
    }

    /** What holds even when a session has taken a second name. */
    ghost predicate Aligned()
      reads this
    {
      byConn == nodeIDs.Keys && "" !in nodes
    }

    method OnConnect(c: nat)
      requires Aligned() && c !in byConn
      modifies this
      ensures Aligned() && (old(Valid()) ==> Valid())
      ensures nodes == old(nodes) && State().nodeID == old(State()).nodeID[c := ""]
      ensures byConn == old(byConn) + {c} && closing == old(closing)
    {
      byConn := byConn + {c};
      nodeIDs := nodeIDs[c := ""];
    }

    /** wireRegister: refused without a node id; otherwise the session takes the name over. The table
        stays consistent exactly when the session does not still serve another node. */
    method Register(c: nat, n: string) returns (ok: bool)
      requires Aligned() && c in byConn
      modifies this
      ensures Aligned() && ok == (n != "")
      ensures State() == if ok then Bound(old(State()), c, n) else old(State())
      ensures byConn == old(byConn)
      ensures old(Valid()) ==> (Valid() <==> !ok || !Serves(old(State()), c, n))
      ensures ok ==> nodes == old(nodes)[n := c] && nodeIDs == old(nodeIDs)[c := n]
      ensures closing == if ok && n in old(nodes) && old(nodes)[n] != c then old(closing) + {old(nodes)[n]}
                         else old(closing)
    {
      if n == "" {
        return false;
      }
      StateIs();
      if Inv(State()) {
        BoundInv(State(), c, n);
      }
      if n in nodes && nodes[n] != c {
        closing := closing + {nodes[n]};
        nodes := nodes - {n};
      }
      nodes := nodes[n := c];
      nodeIDs := nodeIDs[c := n];
      StateIs();
      return true;
    }

    method OnClose(c: nat)
      requires Aligned()
      modifies this
      ensures Aligned() && (old(Valid()) ==> Valid())
      ensures State() == Closed(old(State()), c) && byConn == old(byConn) - {c} && closing == old(closing)
    {
      if c !in byConn {
        return;
      }
      byConn := byConn - {c};
      if nodeIDs[c] != "" && nodeIDs[c] in nodes && nodes[nodeIDs[c]] == c {
        nodes := nodes - {nodeIDs[c]};
      }
      nodeIDs := nodeIDs - {c};
    }
  }

  /** Closing a session removes exactly the entry that still points at it. */
  lemma CloseSparesSuccessors(s: Table, c: nat, n: string)
    requires Inv(s)
    ensures n in Closed(s, c).nodes <==> n in s.nodes && s.nodes[n] != c
    ensures n in Closed(s, c).nodes ==> Closed(s, c).nodes[n] == s.nodes[n]
  {
    if n in s.nodes && s.nodes[n] == c {
      assert s.nodeID[c] == n;
    }
  }

  datatype Event = Open(c: nat) | Bind(c: nat, n: string) | Close(c: nat)

  /** A session registers while it is open. */
  predicate Enabled(s: Table, ev: Event) {
    match ev
    case Open(c) => c !in s.nodeID
    case Bind(c, n) => n != "" && c in s.nodeID
    case Close(_) => true
  }

  function Next(s: Table, ev: Event): Table
    requires Enabled(s, ev)
  {
    match ev
    case Open(c) => s.(nodeID := s.nodeID[c := ""])
    case Bind(c, n) => Bound(s, c, n)
    case Close(c) => Closed(s, c)
  }

  predicate Enableds(s: Table, evs: seq<Event>)
    decreases |evs|
  {
    evs == [] || (Enabled(s, evs[0]) && Enableds(Next(s, evs[0]), evs[1..]))
  }

  function Run(s: Table, evs: seq<Event>): Table
    requires Enableds(s, evs)
    decreases |evs|
  {
    if evs == [] then s else Run(Next(s, evs[0]), evs[1..])
  }

  /** No session takes a second name while it serves a first. */
  predicate OneNameEach(s: Table, evs: seq<Event>)
    requires Enableds(s, evs)
    decreases |evs|
  {
    evs == [] || ((evs[0].Bind? ==> !Serves(s, evs[0].c, evs[0].n)) && OneNameEach(Next(s, evs[0]), evs[1..]))
  }

  lemma {:induction false} RunInv(s: Table, evs: seq<Event>)
    requires Inv(s) && Enableds(s, evs) && OneNameEach(s, evs)
    ensures Inv(Run(s, evs))
    decreases |evs|
  {
    if evs != [] {
      if evs[0].Bind? {
        BoundInv(s, evs[0].c, evs[0].n);
      }
      RunInv(Next(s, evs[0]), evs[1..]);
    }
  }

  /** In every reachable state of a run without second names, every entry points at an open session
      that answers to it. */
  lemma AlwaysConsistent(evs: seq<Event>, n: string)
    requires Enableds(EMPTY, evs) && OneNameEach(EMPTY, evs)
    ensures var s := Run(EMPTY, evs);
      n in s.nodes ==> n != "" && s.nodes[n] in s.nodeID && s.nodeID[s.nodes[n]] == n
  {
    RunInv(EMPTY, evs);
  }

  /** Who a history of registrations and closes leaves as the holder of a name: the last session that
      registered it, unless that one has closed since. */
  function Holder(evs: seq<Event>, n: string, before: Option<nat>): Option<nat>
    decreases |evs|
  {
    if evs == [] then before
    else
      var now := match evs[0]
        case Bind(c, m) => if m == n then Some(c) else before
        case Close(c) => if before == Some(c) then None else before
        case Open(_) => before;
      Holder(evs[1..], n, now)
  }

  function Lookup(s: Table, n: string): Option<nat> {
    if n in s.nodes then Some(s.nodes[n]) else None
  }

  lemma {:induction false} LookupFollows(s: Table, evs: seq<Event>, n: string)
    requires Inv(s) && Enableds(s, evs) && OneNameEach(s, evs)
    ensures Lookup(Run(s, evs), n) == Holder(evs, n, Lookup(s, n))
    decreases |evs|
  {
    if evs != [] {
      match evs[0] {
        case Bind(c, m) => BoundInv(s, c, m);
        case Close(c) => CloseSparesSuccessors(s, c, n);
        case Open(c) =>
      }
      LookupFollows(Next(s, evs[0]), evs[1..], n);
    }
  }

  /** Exactly: after any run without second names the table knows a name if and only if the last
      session that registered it is still open, and then it leads to that session. */
  lemma TableIsHistory(evs: seq<Event>, n: string)
    requires Enableds(EMPTY, evs) && OneNameEach(EMPTY, evs)
    ensures Lookup(Run(EMPTY, evs), n) == Holder(evs, n, None)
  {
    LookupFollows(EMPTY, evs, n);
  }

  /** Once a session has taken a name over it keeps it until it closes or is itself superseded,
      whenever the sessions before it close and whatever names the sessions take. */
  lemma {:induction false} TakeoverSurvives(s: Table, evs: seq<Event>, c: nat, n: string)
    requires Enableds(s, evs)
    requires n in s.nodes && s.nodes[n] == c
    requires Close(c) !in evs && forall d :: d != c ==> Bind(d, n) !in evs
    ensures n in Run(s, evs).nodes && Run(s, evs).nodes[n] == c
    decreases |evs|
  {
    if evs != [] {
      assert evs[0] in evs;
      TakeoverSurvives(Next(s, evs[0]), evs[1..], c, n);
    }
  }
}
