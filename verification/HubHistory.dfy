/** What the directory holds, read off the history of what the connections sent: who is authenticated,
    who owns an actor and under which address, and what a lookup answers, all without the server's
    state. */
module HubHistory {
  import opened Wrappers
  import opened HubServer

  lemma {:induction false} RunSnoc(s: Server, evs: seq<Event>, ev: Event)
    ensures Run(s, evs + [ev]) == Next(Run(s, evs), ev)
    decreases |evs|
  {
    if evs == [] {
      assert ([] + [ev])[1..] == [];
    } else {
      RunSnoc(Next(s, evs[0]), evs[1..], ev);
      assert (evs + [ev])[1..] == evs[1..] + [ev];
    }
  }

  /** The state after the first i events. */
  function After(evs: seq<Event>, i: nat): Server
    requires i <= |evs|
  {
    Run(EMPTY, evs[..i])
  }

  lemma AfterNext(evs: seq<Event>, i: nat)
    requires i < |evs|
    ensures After(evs, i + 1) == Next(After(evs, i), evs[i])
  {
    assert evs[..i + 1] == evs[..i] + [evs[i]];
    RunSnoc(EMPTY, evs[..i], evs[i]);
  }

  lemma AfterNone(evs: seq<Event>)
    ensures After(evs, 0) == EMPTY
  {
    assert evs[..0] == [];
  }

  // ---------------------------------------------------------------- authentication

  /** Among the first n events, the connection sent the right password and has not closed since. */
  ghost predicate LoggedIn(evs: seq<Event>, n: nat, c: nat)
    requires n <= |evs|
  {
    exists i :: 0 <= i < n && evs[i] == Auth(c, true) && StaysOpen(evs, i + 1, n, c)
  }

  ghost predicate StaysOpen(evs: seq<Event>, from: nat, n: nat, c: nat)
    requires n <= |evs|
  {
    forall j :: from <= j < n ==> evs[j] != Close(c)
  }

  /** A connection counts as authenticated exactly while it is logged in. */
  lemma {:induction false} AuthedIffLoggedIn(evs: seq<Event>, n: nat, c: nat)
    requires n <= |evs|
    ensures c in After(evs, n).authed <==> LoggedIn(evs, n, c)
    decreases n
  {
    if n == 0 {
      AfterNone(evs);
    } else {
      AuthedIffLoggedIn(evs, n - 1, c);
      AfterNext(evs, n - 1);
      LoggedInNext(evs, n - 1, c);
    }
  }

  lemma LoggedInNext(evs: seq<Event>, n: nat, c: nat)
    requires n < |evs|
    ensures LoggedIn(evs, n + 1, c) <==>
      evs[n] == Auth(c, true) || (LoggedIn(evs, n, c) && evs[n] != Close(c))
  {
    if evs[n] == Auth(c, true) {
      assert StaysOpen(evs, n + 1, n + 1, c);
    } else if LoggedIn(evs, n, c) && evs[n] != Close(c) {
      var i :| 0 <= i < n && evs[i] == Auth(c, true) && StaysOpen(evs, i + 1, n, c);
      assert StaysOpen(evs, i + 1, n + 1, c);
    }
    if LoggedIn(evs, n + 1, c) && evs[n] != Auth(c, true) {
      var i :| 0 <= i < n + 1 && evs[i] == Auth(c, true) && StaysOpen(evs, i + 1, n + 1, c);
      assert StaysOpen(evs, i + 1, n, c);
    }
  }

  predicate From(ev: Event, c: nat) {
    ev.c == c
  }

  /** The history without what connection c did. */
  function Ignoring(evs: seq<Event>, c: nat): seq<Event> {
    if evs == [] then []
    else if From(evs[0], c) then Ignoring(evs[1..], c)
    else [evs[0]] + Ignoring(evs[1..], c)
  }

  ghost predicate Stranger(s: Server, c: nat) {
    c !in s.authed && c !in s.connRegs && forall l :: l in s.actorOwner ==> s.actorOwner[l] != c
  }

  lemma StrangerNext(s: Server, ev: Event, c: nat)
    requires Stranger(s, c) && ev != Auth(c, true)
    ensures Stranger(Next(s, ev), c)
    ensures From(ev, c) ==> Next(s, ev) == s
  {
    if ev == Close(c) {
      assert Mine(s.actorOwner, c, s.Regs(c)) == {};
    }
  }

  lemma {:induction false} StrangerRun(s: Server, evs: seq<Event>, c: nat)
    requires Stranger(s, c) && Auth(c, true) !in evs
    ensures Run(s, evs) == Run(s, Ignoring(evs, c))
    decreases |evs|
  {
    if evs != [] {
      assert evs[0] in evs;
      StrangerNext(s, evs[0], c);
      StrangerRun(Next(s, evs[0]), evs[1..], c);
      if !From(evs[0], c) {
        assert ([evs[0]] + Ignoring(evs[1..], c))[1..] == Ignoring(evs[1..], c);
      }
    }
  }

  /** A connection that never sends the right password leaves no trace: whatever it sends, the server
      is where it would be had the connection never existed. */
  lemma StrangersLeaveNoTrace(evs: seq<Event>, c: nat)
    requires Auth(c, true) !in evs
    ensures Run(EMPTY, evs) == Run(EMPTY, Ignoring(evs, c))
  {
    StrangerRun(EMPTY, evs, c);
  }

  // ---------------------------------------------------------------- owners and addresses

  function IdOf(req: RegisterActorReq): LucencyID {
    LucencyID(req.nodeID, req.actorKey)
  }

  /** Event i is a well-formed request with this code, of a connection logged in at that time. */
  ghost predicate Carried(evs: seq<Event>, i: nat, opCode: int)
    requires i < |evs|
  {
    && evs[i].Request? && evs[i].req.opCode == opCode
    && LoggedIn(evs, i, evs[i].c)
    && ValidName(evs[i].req.nodeID) && ValidName(evs[i].req.actorKey)
    && (opCode == 1 ==>
          && evs[i].req.nodeInfo.Some? && evs[i].req.nodeInfo.value.rpcAddress != ""
          && (evs[i].req.nodeInfo.value.nodeID == "" || evs[i].req.nodeInfo.value.nodeID == evs[i].req.nodeID))
  }

  ghost predicate Registers(evs: seq<Event>, i: nat, l: LucencyID)
    requires i < |evs|
  {
    Carried(evs, i, 1) && IdOf(evs[i].req) == l
  }

  /** Event j ends what connection c has registered as l. */
  ghost predicate Ends(evs: seq<Event>, j: nat, c: nat, l: LucencyID)
    requires j < |evs|
  {
    || Registers(evs, j, l)
    || (Carried(evs, j, 2) && evs[j].c == c && IdOf(evs[j].req) == l)
    || evs[j] == Close(c)
  }

  ghost predicate Lasts(evs: seq<Event>, from: nat, n: nat, c: nat, l: LucencyID)
    requires n <= |evs|
  {
    forall j :: from <= j < n ==> !Ends(evs, j, c, l)
  }

  /** Event i registered l for connection c, and nothing up to n has ended that. */
  ghost predicate HeldBy(evs: seq<Event>, i: nat, n: nat, c: nat, l: LucencyID)
    requires i < n <= |evs|
  {
    Registers(evs, i, l) && evs[i].c == c && Lasts(evs, i + 1, n, c, l)
  }

  lemma AcceptedIffCarried(evs: seq<Event>, i: nat)
    requires i < |evs| && evs[i].Request?
    ensures Refusal(After(evs, i), evs[i].c, evs[i].req).None? <==> Carried(evs, i, 1) || Carried(evs, i, 2)
  {
    AuthedIffLoggedIn(evs, i, evs[i].c);
  }

  /** How one event changes an actor's entry. */
  lemma EntryNext(evs: seq<Event>, n: nat, c: nat, l: LucencyID)
    requires n < |evs|
    ensures var s, t := After(evs, n), After(evs, n + 1);
      && (Registers(evs, n, l) ==> (t.Owns(c, l) <==> evs[n].c == c))
      && (Registers(evs, n, l) ==> l in t.directory && t.directory[l] == evs[n].req.nodeInfo.value.rpcAddress)
      && (!Registers(evs, n, l) ==> (t.Owns(c, l) <==> s.Owns(c, l) && !Ends(evs, n, c, l)))
      && (t.Owns(c, l) && !Registers(evs, n, l) && l in s.directory ==>
            l in t.directory && t.directory[l] == s.directory[l])
  {
    var s := After(evs, n);
    AfterNext(evs, n);
    AlwaysConsistent(evs[..n]);
    match evs[n]
    case Request(d, req) =>
      AcceptedIffCarried(evs, n);
    case Close(d) =>
      assert l in s.Regs(d) <==> s.Owns(d, l);
    case Auth(d, ok) =>
  }

  lemma LastsNext(evs: seq<Event>, i: nat, n: nat, c: nat, l: LucencyID)
    requires i < n < |evs|
    ensures HeldBy(evs, i, n + 1, c, l) <==> HeldBy(evs, i, n, c, l) && !Ends(evs, n, c, l)
  {
  }

  ghost predicate Held(evs: seq<Event>, n: nat, c: nat, l: LucencyID)
    requires n <= |evs|
  {
    exists i :: 0 <= i < n && HeldBy(evs, i, n, c, l)
  }

  lemma HeldNext(evs: seq<Event>, n: nat, c: nat, l: LucencyID)
    requires n < |evs|
    ensures Held(evs, n + 1, c, l) <==>
      (Registers(evs, n, l) && evs[n].c == c) || (Held(evs, n, c, l) && !Ends(evs, n, c, l))
  {
    if Registers(evs, n, l) && evs[n].c == c {
      assert HeldBy(evs, n, n + 1, c, l);
    } else if Held(evs, n, c, l) && !Ends(evs, n, c, l) {
      var i :| 0 <= i < n && HeldBy(evs, i, n, c, l);
      LastsNext(evs, i, n, c, l);
    }
    if Held(evs, n + 1, c, l) && !(Registers(evs, n, l) && evs[n].c == c) {
      var i :| 0 <= i < n + 1 && HeldBy(evs, i, n + 1, c, l);
      assert i < n;
      LastsNext(evs, i, n, c, l);
    }
  }

  /** Over any history: a connection owns an actor if and only if it has registered it, no accepted
      registration of the actor came later, and it has neither withdrawn it nor closed since. */
  lemma {:induction false} OwnsIffHeld(evs: seq<Event>, n: nat, c: nat, l: LucencyID)
    requires n <= |evs|
    ensures After(evs, n).Owns(c, l) <==> Held(evs, n, c, l)
    decreases n
  {
    if n == 0 {
      AfterNone(evs);
    } else {
      OwnsIffHeld(evs, n - 1, c, l);
      EntryNext(evs, n - 1, c, l);
      HeldNext(evs, n - 1, c, l);
    }
  }

  /** The directory then lists the address that came with that registration. */
  lemma {:induction false} AddressIsRegistered(evs: seq<Event>, i: nat, n: nat, c: nat, l: LucencyID)
    requires i < n <= |evs| && HeldBy(evs, i, n, c, l)
    ensures l in After(evs, n).directory && After(evs, n).directory[l] == evs[i].req.nodeInfo.value.rpcAddress
    decreases n
  {
    EntryNext(evs, n - 1, c, l);
    if i < n - 1 {
      LastsNext(evs, i, n - 1, c, l);
      AddressIsRegistered(evs, i, n - 1, c, l);
      OwnsIffHeld(evs, n - 1, c, l);
    }
  }

  // ---------------------------------------------------------------- node data

  ghost predicate Describes(evs: seq<Event>, i: nat, node: string)
    requires i < |evs|
  {
    Carried(evs, i, 1) && evs[i].req.nodeID == node
  }

  /** Event i is the latest accepted registration of an actor of the node among the first n. */
  ghost predicate Latest(evs: seq<Event>, i: nat, n: nat, node: string)
    requires i < n <= |evs|
  {
    Describes(evs, i, node) && forall j :: i < j < n ==> !Describes(evs, j, node)
  }

  /** The data sent with a registration, under the node's own name. */
  function Sent(req: RegisterActorReq): MemberInfo
    requires req.nodeInfo.Some?
  {
    req.nodeInfo.value.(nodeID := req.nodeID)
  }

  /** Over any history: what the server knows of a node is what came with the latest accepted
      registration of one of its actors, also when that actor is gone. */
  lemma {:induction false} NodeDataIsLatest(evs: seq<Event>, i: nat, n: nat, node: string)
    requires i < n <= |evs| && Latest(evs, i, n, node)
    ensures node in After(evs, n).nodeMeta && After(evs, n).nodeMeta[node] == Sent(evs[i].req)
    decreases n
  {
    NodeDataNext(evs, n - 1, node);
    if i < n - 1 {
      assert !Describes(evs, n - 1, node);
      NodeDataIsLatest(evs, i, n - 1, node);
    }
  }

  /** It knows nothing of a node none of whose actors was ever registered. */
  lemma {:induction false} NoNodeDataUnsent(evs: seq<Event>, n: nat, node: string)
    requires n <= |evs| && forall i :: 0 <= i < n ==> !Describes(evs, i, node)
    ensures node !in After(evs, n).nodeMeta
    decreases n
  {
    if n == 0 {
      AfterNone(evs);
    } else {
      NodeDataNext(evs, n - 1, node);
      NoNodeDataUnsent(evs, n - 1, node);
    }
  }

  lemma NodeDataNext(evs: seq<Event>, n: nat, node: string)
    requires n < |evs|
    ensures var s, t := After(evs, n), After(evs, n + 1);
      && (Describes(evs, n, node) ==> node in t.nodeMeta && t.nodeMeta[node] == Sent(evs[n].req))
      && (!Describes(evs, n, node) ==> (node in t.nodeMeta <==> node in s.nodeMeta))
      && (!Describes(evs, n, node) && node in s.nodeMeta ==> t.nodeMeta[node] == s.nodeMeta[node])
  {
    AfterNext(evs, n);
    if evs[n].Request? {
      AcceptedIffCarried(evs, n);
    }
  }
}
