/** One hub client that loses and regains its connection, the channels between it and the server,
    and the server: what the directory lists for the client once things have settled. Client calls
    and server handlers are atomic; each connection is FIFO, and all its messages are handled
    before its OnClose. */
module HubConvergence {
  import opened Wrappers
  import opened HubServer

  /** The client's password and node data, and the server's password. */
  datatype Config = Config(password: string, info: MemberInfo, serverPassword: string)

  datatype Msg = AuthReq | Register(l: LucencyID) | Unregister(l: LucencyID)

  function Req(cfg: Config, m: Msg): RegisterActorReq
    requires !m.AuthReq?
  {
    RegisterActorReq(if m.Register? then 1 else 2, m.l.nodeID, m.l.actorKey, Some(cfg.info))
  }

  /** The server finds nothing wrong with the request itself. */
  predicate WellFormed(cfg: Config, m: Msg)
    requires !m.AuthReq?
  {
    Malformed(Req(cfg, m)).None?
  }

  function ServerStep(cfg: Config, s: Server, c: nat, m: Msg): Server {
    if m.AuthReq? then Authenticated(s, c, cfg.password == cfg.serverPassword)
    else Handled(s, c, Req(cfg, m))
  }

  /** `conn` is the connection the client has not yet seen OnClose for; `linked` says that SendMsg
      succeeds on it, `up` that what is sent still arrives. `reply` is a positive AuthResp under way.
      `refused` collects the requests answered with an error, which a timer may send again. `stolen`
      records the actors that the current connection had and lost to a registration that the server
      handled late, on a superseded connection. */
  datatype Sys = Sys(
    server: Server, chans: map<nat, seq<Msg>>, next: nat,
    owned: set<LucencyID>, authed: bool, conn: Option<nat>, linked: bool, up: bool, reply: bool,
    refused: set<Msg>, stolen: set<LucencyID>)

  const INIT := Sys(EMPTY, map[], 0, {}, false, None, false, false, false, {}, {})

  datatype Event =
    | Connect                                // OnConnect: AuthReq is sent
    | Deliver(c: nat)                        // the server handles the next message of c
    | Reply(ids: seq<LucencyID>)             // OnRaw(AuthResp): resendOwnedActors
    | ReqRegister(l: LucencyID)
    | ReqUnregister(l: LucencyID)
    | Retry(m: Msg)                          // the timer of a refused request
    | Cut(n: nat)                            // the wire breaks; all but n messages under way are lost
    | Unlink                                 // the client's transport notices
    | ClientClose                            // the client's OnClose
    | ServerClose(c: nat)                    // the server's OnClose

  predicate Enumerates(ids: seq<LucencyID>, owned: set<LucencyID>) {
    && (forall l :: l in ids ==> l in owned) && (forall l :: l in owned ==> l in ids)
    && forall i, j :: 0 <= i < j < |ids| ==> ids[i] != ids[j]
  }

  predicate Enabled(s: Sys, ev: Event) {
    match ev
    case Connect => s.conn.None?
    case Deliver(c) => c in s.chans && s.chans[c] != []
    case Reply(ids) => s.conn.Some? && s.reply && Enumerates(ids, s.owned)
    case ReqRegister(_) => s.authed && s.linked
    case ReqUnregister(_) => s.authed && s.linked
    case Retry(m) => m in s.refused && s.authed && s.linked
    case Cut(n) => s.conn.Some? && s.up && s.conn.value in s.chans && n <= |s.chans[s.conn.value]|
    case Unlink => s.conn.Some? && s.linked && !s.up
    case ClientClose => s.conn.Some? && !s.linked
    case ServerClose(c) => c in s.chans && s.chans[c] == [] && !(s.up && s.conn == Some(c))
  }

  /** sendRequest: what is sent while the wire is down is lost. */
  function Sent(s: Sys, ms: seq<Msg>): Sys {
    if s.up && s.conn.Some? && s.conn.value in s.chans then
      s.(chans := s.chans[s.conn.value := s.chans[s.conn.value] + ms])
    else
      s
  }

  function Regs(ids: seq<LucencyID>): seq<Msg> {
    if ids == [] then [] else [Register(ids[0])] + Regs(ids[1..])
  }

  function Delivered(cfg: Config, s: Sys, c: nat): Sys
    requires Enabled(s, Deliver(c))
  {
    var m := s.chans[c][0];
    var refusal := !m.AuthReq? && Refusal(s.server, c, Req(cfg, m)).Some?;
    s.(server := ServerStep(cfg, s.server, c, m), chans := s.chans[c := s.chans[c][1..]],
       reply := s.reply || (m.AuthReq? && s.conn == Some(c) && cfg.password == cfg.serverPassword),
       refused := if refusal then s.refused + {m} else s.refused,
       stolen := if m.AuthReq? || refusal then s.stolen
                 else if s.conn == Some(c) then s.stolen - {m.l}
                 else if m.Register? && s.conn.Some? && s.server.Owns(s.conn.value, m.l) then s.stolen + {m.l}
                 else s.stolen)
  }

  function Step(cfg: Config, s: Sys, ev: Event): Sys
    requires Enabled(s, ev)
  {
    match ev
    case Connect =>
      s.(conn := Some(s.next), next := s.next + 1, chans := s.chans[s.next := [AuthReq]],
         linked := true, up := true, stolen := {})
    case Deliver(c) => Delivered(cfg, s, c)
    case Reply(ids) => Sent(s, if s.linked then Regs(ids) else []).(authed := true, reply := false)
    case ReqRegister(l) => Sent(s, [Register(l)]).(owned := s.owned + {l})
    case ReqUnregister(l) => Sent(s, [Unregister(l)]).(owned := s.owned - {l})
    case Retry(m) => Sent(s, [m])
    case Cut(n) => s.(up := false, chans := s.chans[s.conn.value := s.chans[s.conn.value][..n]])
    case Unlink => s.(linked := false)
    case ClientClose => s.(authed := false, reply := false, conn := None)
    case ServerClose(c) => s.(server := Closed(s.server, c), chans := s.chans - {c})
  }

  /** What handling one more message does to the set of actors a connection holds. */
  function Apply(cfg: Config, held: set<LucencyID>, m: Msg): set<LucencyID> {
    if m.AuthReq? || !WellFormed(cfg, m) then held
    else if m.Register? then held + {m.l}
    else held - {m.l}
  }

  function Pend(cfg: Config, held: set<LucencyID>, ms: seq<Msg>): set<LucencyID>
    decreases |ms|
  {
    if ms == [] then held else Pend(cfg, Apply(cfg, held, ms[0]), ms[1..])
  }

  /** The client's actors that the server accepts: valid names, of the node the client speaks for. */
  function Wanted(cfg: Config, owned: set<LucencyID>): set<LucencyID> {
    set l | l in owned && WellFormed(cfg, Register(l))
  }

  lemma {:induction false} PendAppend(cfg: Config, held: set<LucencyID>, a: seq<Msg>, b: seq<Msg>)
    ensures Pend(cfg, held, a + b) == Pend(cfg, Pend(cfg, held, a), b)
    decreases |a|
  {
    if a == [] {
      assert [] + b == b;
    } else {
      assert (a + b)[1..] == a[1..] + b;
      PendAppend(cfg, Apply(cfg, held, a[0]), a[1..], b);
    }
  }

  lemma PendSnoc(cfg: Config, held: set<LucencyID>, a: seq<Msg>, m: Msg)
    ensures Pend(cfg, held, a + [m]) == Apply(cfg, Pend(cfg, held, a), m)
  {
    PendAppend(cfg, held, a, [m]);
    assert [m][1..] == [];
  }

  lemma {:induction false} PendRegs(cfg: Config, held: set<LucencyID>, ids: seq<LucencyID>)
    ensures Pend(cfg, held, Regs(ids)) == held + set l | l in ids && WellFormed(cfg, Register(l))
    ensures forall i :: 0 <= i < |Regs(ids)| ==> Regs(ids)[i].Register?
    decreases |ids|
  {
    if ids != [] {
      PendRegs(cfg, Apply(cfg, held, Register(ids[0])), ids[1..]);
      assert Regs(ids)[1..] == Regs(ids[1..]);
      assert forall l :: l in ids <==> l == ids[0] || l in ids[1..];
    }
  }

  /** What the server holds for the current connection, plus what was stolen from it. */
  function View(s: Sys): set<LucencyID>
    requires s.conn.Some?
  {
    s.server.OwnedBy(s.conn.value) + s.stolen
  }

  ghost predicate OnlyAuth(ms: seq<Msg>) {
    forall i :: 0 <= i < |ms| ==> ms[i].AuthReq?
  }

  ghost predicate NoAuth(ms: seq<Msg>) {
    forall i :: 0 <= i < |ms| ==> !ms[i].AuthReq?
  }

  /** While the wire is up, carrying out what is under way brings the server to what is wanted. */
  ghost predicate Converging(cfg: Config, s: Sys) {
    && s.conn.Some? && s.conn.value in s.chans
    && (s.authed ==>
         && s.conn.value in s.server.authed && NoAuth(s.chans[s.conn.value]) && !s.reply
         && Pend(cfg, View(s), s.chans[s.conn.value]) == Wanted(cfg, s.owned))
    && (!s.authed ==> View(s) == {} && OnlyAuth(s.chans[s.conn.value]))
    && (s.reply ==> s.conn.value in s.server.authed && s.chans[s.conn.value] == [])
    && (!s.authed && !s.reply && cfg.password == cfg.serverPassword ==> s.chans[s.conn.value] != [])
    && (OnlyAuth(s.chans[s.conn.value]) && s.chans[s.conn.value] != [] ==> s.chans[s.conn.value] == [AuthReq])
  }

  /** Bookkeeping of connections: identifiers are fresh, and an unauthenticated connection has
      carried nothing but AuthReq. */
  ghost predicate Tidy(s: Sys) {
    && HubServer.Inv(s.server)
    && (forall c :: c in s.chans || c in s.server.authed ==> c < s.next)
    && (forall c :: c in s.chans && c !in s.server.authed ==> OnlyAuth(s.chans[c]))
    && (s.conn.Some? ==> s.conn.value < s.next)
    && (s.conn.Some? ==> s.server.OwnedBy(s.conn.value) !! s.stolen)
    && (s.conn.None? ==> !s.authed && !s.reply && !s.up)
    && (s.up ==> s.linked)
  }

  ghost predicate Inv(cfg: Config, s: Sys) {
    && Tidy(s)
    && (forall m :: m in s.refused ==> !m.AuthReq? && !WellFormed(cfg, m))
    && (s.up ==> Converging(cfg, s))
  }

  /** A carried-out request changes what connection d holds only if it is d's own request, or a
      registration that takes the actor over. */
  lemma HandledOwners(cfg: Config, s: Server, c: nat, m: Msg, d: nat)
    requires !m.AuthReq? && c in s.authed
    ensures var t := ServerStep(cfg, s, c, m);
      && t.authed == s.authed
      && t.OwnedBy(d) == if c == d then Apply(cfg, s.OwnedBy(d), m)
                         else if m.Register? && WellFormed(cfg, m) then s.OwnedBy(d) - {m.l}
                         else s.OwnedBy(d)
  {
  }

  lemma ServerStepInv(cfg: Config, s: Server, c: nat, m: Msg)
    requires HubServer.Inv(s)
    ensures HubServer.Inv(ServerStep(cfg, s, c, m))
  {
    if m.AuthReq? {
      AuthInv(s, c, cfg.password == cfg.serverPassword);
    } else {
      HandledInv(s, c, Req(cfg, m));
    }
  }

  lemma DeliveredTidy(cfg: Config, s: Sys, c: nat)
    requires Tidy(s) && Enabled(s, Deliver(c))
    ensures Tidy(Delivered(cfg, s, c))
  {
    ServerStepInv(cfg, s.server, c, s.chans[c][0]);
    DeliveredFields(cfg, s, c);
    DeliveredApart(cfg, s, c);
    DeliveredChans(cfg, s, c);
  }

  lemma DeliveredFields(cfg: Config, s: Sys, c: nat)
    requires Enabled(s, Deliver(c))
    ensures var t := Delivered(cfg, s, c);
      && t.server == ServerStep(cfg, s.server, c, s.chans[c][0])
      && t.chans == s.chans[c := s.chans[c][1..]]
      && t.next == s.next && t.conn == s.conn && t.authed == s.authed && t.up == s.up && t.linked == s.linked
      && (s.conn.None? ==> t.reply == s.reply)
  {
  }

  lemma ServerAuthed(cfg: Config, s: Server, c: nat, m: Msg)
    ensures s.authed <= ServerStep(cfg, s, c, m).authed <= s.authed + {c}
  {
  }

  lemma DeliveredChans(cfg: Config, s: Sys, c: nat)
    requires Enabled(s, Deliver(c)) && c < s.next
    requires forall d :: d in s.chans || d in s.server.authed ==> d < s.next
    requires forall d :: d in s.chans && d !in s.server.authed ==> OnlyAuth(s.chans[d])
    ensures var t := Delivered(cfg, s, c);
      && (forall d :: d in t.chans || d in t.server.authed ==> d < t.next)
      && (forall d :: d in t.chans && d !in t.server.authed ==> OnlyAuth(t.chans[d]))
  {
    var t := Delivered(cfg, s, c);
    DeliveredFields(cfg, s, c);
    ServerAuthed(cfg, s.server, c, s.chans[c][0]);
    assert OnlyAuth(s.chans[c]) ==> OnlyAuth(s.chans[c][1..]);
    forall d | d in t.chans && d !in t.server.authed ensures OnlyAuth(t.chans[d]) {
      assert OnlyAuth(s.chans[d]);
    }
  }

  lemma DeliveredApart(cfg: Config, s: Sys, c: nat)
    requires Enabled(s, Deliver(c))
    requires s.conn.Some? ==> s.server.OwnedBy(s.conn.value) !! s.stolen
    ensures var t := Delivered(cfg, s, c);
      t.conn.Some? ==> t.server.OwnedBy(t.conn.value) !! t.stolen
  {
    var m := s.chans[c][0];
    if !m.AuthReq? && c in s.server.authed && s.conn.Some? {
      HandledOwners(cfg, s.server, c, m, s.conn.value);
    }
  }

  /** The server handles a message of the current connection. */
  lemma DeliveredHere(cfg: Config, s: Sys, c: nat)
    requires Inv(cfg, s) && Enabled(s, Deliver(c)) && s.up && s.conn == Some(c)
    ensures Converging(cfg, Delivered(cfg, s, c))
  {
    var m := s.chans[c][0];
    if s.authed {
      HandledOwners(cfg, s.server, c, m, c);
      assert View(Delivered(cfg, s, c)) == Apply(cfg, View(s), m);
    } else {
      assert s.chans[c] == [AuthReq];
    }
  }

  /** The server handles a late message of a superseded connection. */
  lemma DeliveredElsewhere(cfg: Config, s: Sys, c: nat)
    requires Inv(cfg, s) && Enabled(s, Deliver(c)) && s.up && s.conn != Some(c)
    ensures Converging(cfg, Delivered(cfg, s, c))
  {
    var m := s.chans[c][0];
    if !m.AuthReq? {
      assert c in s.server.authed;
      HandledOwners(cfg, s.server, c, m, s.conn.value);
    }
    assert View(Delivered(cfg, s, c)) == View(s);
  }

  lemma DeliveredInv(cfg: Config, s: Sys, c: nat)
    requires Inv(cfg, s) && Enabled(s, Deliver(c))
    ensures Inv(cfg, Delivered(cfg, s, c))
  {
    DeliveredTidy(cfg, s, c);
    if s.up {
      if s.conn == Some(c) {
        DeliveredHere(cfg, s, c);
      } else {
        DeliveredElsewhere(cfg, s, c);
      }
    }
    var m := s.chans[c][0];
    if m.AuthReq? || Refusal(s.server, c, Req(cfg, m)).None? {
      assert Delivered(cfg, s, c).refused == s.refused;
    } else {
      assert c in s.server.authed;
    }
  }

  /** Sending one message of the authenticated client. */
  lemma SentOne(cfg: Config, s: Sys, m: Msg, owned: set<LucencyID>)
    requires Inv(cfg, s) && s.authed && !m.AuthReq?
    requires Wanted(cfg, owned) == Apply(cfg, Wanted(cfg, s.owned), m)
    ensures Inv(cfg, Sent(s, [m]).(owned := owned))
  {
    if s.up {
      PendSnoc(cfg, View(s), s.chans[s.conn.value], m);
    }
  }

  lemma ReplyInv(cfg: Config, s: Sys, ids: seq<LucencyID>)
    requires Inv(cfg, s) && Enabled(s, Reply(ids))
    ensures Inv(cfg, Step(cfg, s, Reply(ids)))
  {
    PendRegs(cfg, {}, ids);
    if s.up {
      assert [] + Regs(ids) == Regs(ids);
      assert View(s) == {};
      assert Wanted(cfg, s.owned) == set l | l in ids && WellFormed(cfg, Register(l));
    }
  }

  lemma ConnectInv(cfg: Config, s: Sys)
    requires Inv(cfg, s) && s.conn.None?
    ensures Inv(cfg, Step(cfg, s, Connect))
  {
    assert s.server.OwnedBy(s.next) == {} by {
      forall l | l in s.server.actorOwner ensures s.server.actorOwner[l] != s.next {
        assert s.server.actorOwner[l] in s.server.authed;
      }
    }
  }

  lemma ServerCloseInv(cfg: Config, s: Sys, c: nat)
    requires Inv(cfg, s) && Enabled(s, ServerClose(c))
    ensures Inv(cfg, Step(cfg, s, ServerClose(c)))
  {
    ClosedInv(s.server, c);
    var t := Closed(s.server, c);
    forall d | d != c ensures t.OwnedBy(d) == s.server.OwnedBy(d) {
      assert forall l :: l in s.server.actorOwner && s.server.actorOwner[l] == d ==>
        l !in Mine(s.server.actorOwner, c, s.server.Regs(c));
    }
    if s.conn.Some? {
      assert t.OwnedBy(s.conn.value) <= s.server.OwnedBy(s.conn.value);
    }
  }

  lemma StepInv(cfg: Config, s: Sys, ev: Event)
    requires Inv(cfg, s) && Enabled(s, ev)
    ensures Inv(cfg, Step(cfg, s, ev))
  {
    match ev
    case Connect => ConnectInv(cfg, s);
    case Deliver(c) => DeliveredInv(cfg, s, c);
    case Reply(ids) => ReplyInv(cfg, s, ids);
    case ReqRegister(l) => SentOne(cfg, s, Register(l), s.owned + {l});
    case ReqUnregister(l) => SentOne(cfg, s, Unregister(l), s.owned - {l});
    case Retry(m) => SentOne(cfg, s, m, s.owned);
    case ServerClose(c) => ServerCloseInv(cfg, s, c);
    case _ =>
  }

  predicate Enableds(cfg: Config, s: Sys, evs: seq<Event>)
    decreases |evs|
  {
    evs == [] || (Enabled(s, evs[0]) && Enableds(cfg, Step(cfg, s, evs[0]), evs[1..]))
  }

  function Steps(cfg: Config, s: Sys, evs: seq<Event>): Sys
    requires Enableds(cfg, s, evs)
    decreases |evs|
  {
    if evs == [] then s else Steps(cfg, Step(cfg, s, evs[0]), evs[1..])
  }

  lemma {:induction false} StepsInv(cfg: Config, s: Sys, evs: seq<Event>)
    requires Inv(cfg, s) && Enableds(cfg, s, evs)
    ensures Inv(cfg, Steps(cfg, s, evs))
    decreases |evs|
  {
    if evs != [] {
      StepInv(cfg, s, evs[0]);
      StepsInv(cfg, Step(cfg, s, evs[0]), evs[1..]);
    }
  }

  /** The client is authenticated over a working connection and nothing is under way on it. */
  predicate Settled(s: Sys) {
    s.authed && s.up && s.conn.Some? && s.conn.value in s.chans && s.chans[s.conn.value] == []
  }

  /** Convergence, whatever was lost, retried or superseded before and whenever the old connections
      close: once settled, the current connection owns exactly the wanted actors that were not
      stolen from it, so exactly the wanted ones if and only if none was stolen. */
  lemma Convergence(cfg: Config, evs: seq<Event>)
    requires Enableds(cfg, INIT, evs) && Settled(Steps(cfg, INIT, evs))
    ensures var s := Steps(cfg, INIT, evs);
      && s.server.OwnedBy(s.conn.value) == Wanted(cfg, s.owned) - s.stolen
      && (s.server.OwnedBy(s.conn.value) == Wanted(cfg, s.owned) <==> s.stolen == {})
      && s.server.OwnedBy(s.conn.value) <= s.server.directory.Keys
  {
    StepsInv(cfg, INIT, evs);
    var s := Steps(cfg, INIT, evs);
    assert View(s) == Wanted(cfg, s.owned);
    assert s.stolen <= View(s);
  }

  /** No late registration of an actor is handled on a superseded connection while the current one
      has that actor. */
  predicate Orderly(cfg: Config, s: Sys, evs: seq<Event>)
    requires Enableds(cfg, s, evs)
    decreases |evs|
  {
    evs == [] ||
    (&& (evs[0].Deliver? && s.chans[evs[0].c][0].Register? && s.conn.Some? ==>
           s.conn == Some(evs[0].c) || !s.server.Owns(s.conn.value, s.chans[evs[0].c][0].l))
     && Orderly(cfg, Step(cfg, s, evs[0]), evs[1..]))
  }

  lemma {:induction false} OrderlyStealsNothing(cfg: Config, s: Sys, evs: seq<Event>)
    requires Enableds(cfg, s, evs) && Orderly(cfg, s, evs) && s.stolen == {}
    ensures Steps(cfg, s, evs).stolen == {}
    decreases |evs|
  {
    if evs != [] {
      OrderlyStealsNothing(cfg, Step(cfg, s, evs[0]), evs[1..]);
    }
  }

  /** In an orderly run the late close of an old connection, wherever it falls, does no harm: once
      settled, the current connection owns exactly the client's actors that the server accepts. */
  lemma OrderlyConvergence(cfg: Config, evs: seq<Event>)
    requires Enableds(cfg, INIT, evs) && Settled(Steps(cfg, INIT, evs)) && Orderly(cfg, INIT, evs)
    ensures var s := Steps(cfg, INIT, evs);
      s.server.OwnedBy(s.conn.value) == Wanted(cfg, s.owned)
  {
    Convergence(cfg, evs);
    OrderlyStealsNothing(cfg, INIT, evs);
  }

  /** Once every other connection has closed as well, the directory lists nothing else. */
  lemma OnlyConnectionLists(cfg: Config, evs: seq<Event>)
    requires Enableds(cfg, INIT, evs) && Settled(Steps(cfg, INIT, evs))
    requires forall c :: c in Steps(cfg, INIT, evs).server.authed ==> Steps(cfg, INIT, evs).conn == Some(c)
    ensures var s := Steps(cfg, INIT, evs);
      s.server.directory.Keys == Wanted(cfg, s.owned) - s.stolen
  {
    Convergence(cfg, evs);
    StepsInv(cfg, INIT, evs);
    var s := Steps(cfg, INIT, evs);
    forall l | l in s.server.actorOwner ensures s.server.actorOwner[l] == s.conn.value {
      assert s.server.actorOwner[l] in s.server.authed;
    }
  }

  /** A registration that a superseded connection left behind is still carried out: handled after
      the successor's, it takes the actor away from a settled connection, and the old connection's
      close then drops the actor from the directory although the client still owns it. */
  lemma LateRegistrationSteals(cfg: Config, s: Sys, c: nat, l: LucencyID)
    requires Inv(cfg, s) && Settled(s) && s.conn != Some(c)
    requires c in s.chans && s.chans[c] == [Register(l)] && s.server.Owns(s.conn.value, l)
    ensures Enableds(cfg, s, [Deliver(c), ServerClose(c)])
    ensures var t := Steps(cfg, s, [Deliver(c), ServerClose(c)]);
      && Settled(t) && l in Wanted(cfg, t.owned)
      && l !in t.server.directory
      && t.server.OwnedBy(t.conn.value) == s.server.OwnedBy(s.conn.value) - {l}
  {
    var t := Delivered(cfg, s, c);
    assert l in View(s);
    HandledOwners(cfg, s.server, c, Register(l), s.conn.value);
    DeliveredFields(cfg, s, c);
    DeliveredInv(cfg, s, c);
    assert l in t.server.Regs(c) <==> t.server.Owns(c, l);
    TwoSteps(cfg, s, Deliver(c), ServerClose(c));
    ClosedOthers(t.server, c, s.conn.value);
  }

  lemma TwoSteps(cfg: Config, s: Sys, e: Event, f: Event)
    requires Enabled(s, e) && Enabled(Step(cfg, s, e), f)
    ensures Enableds(cfg, s, [e, f]) && Steps(cfg, s, [e, f]) == Step(cfg, Step(cfg, s, e), f)
  {
    OneStep(cfg, Step(cfg, s, e), f);
    assert [e, f][1..] == [f];
  }

  lemma OneStep(cfg: Config, s: Sys, e: Event)
    requires Enabled(s, e)
    ensures Enableds(cfg, s, [e]) && Steps(cfg, s, [e]) == Step(cfg, s, e)
  {
    var t := Step(cfg, s, e);
    assert [e][1..] == [];
    assert Enableds(cfg, t, []) && Steps(cfg, t, []) == t;
  }

  lemma ClosedOthers(s: Server, c: nat, d: nat)
    requires c != d
    ensures Closed(s, c).OwnedBy(d) == s.OwnedBy(d)
  {
    assert forall l :: s.Owns(d, l) ==> l !in Mine(s.actorOwner, c, s.Regs(c));
  }

  ghost predicate Reaches(cfg: Config, s: Sys, evs: seq<Event>, t: Sys) {
    Enableds(cfg, s, evs) && Steps(cfg, s, evs) == t
  }

  lemma Then(cfg: Config, s: Sys, ev: Event, rest: seq<Event>, t: Sys)
    requires Enabled(s, ev) && Reaches(cfg, Step(cfg, s, ev), rest, t)
    ensures Reaches(cfg, s, [ev] + rest, t)
  {
    assert ([ev] + rest)[1..] == rest;
  }

  const EXAMPLE := Config("p", MemberInfo("n", "", "", "a"), "p")
  const ACTOR := LucencyID("n", "k")

  /** The client registers an actor and loses the wire while the request is on its way. */
  const LEFT_BEHIND := INIT.(
    server := EMPTY.(authed := {0}), chans := map[0 := [Register(ACTOR)]], next := 1, owned := {ACTOR})

  lemma ReachLeftBehind(rest: seq<Event>, t: Sys)
    requires Reaches(EXAMPLE, LEFT_BEHIND, rest, t)
    ensures exists evs :: Reaches(EXAMPLE, INIT, evs, t)
  {
    var s1 := INIT.(conn := Some(0), next := 1, chans := map[0 := [AuthReq]], linked := true, up := true);
    var s2 := s1.(server := EMPTY.(authed := {0}), chans := map[0 := []], reply := true);
    var s3 := s2.(authed := true, reply := false);
    var s4 := s3.(chans := map[0 := [Register(ACTOR)]], owned := {ACTOR});
    var s5 := s4.(up := false);
    var s6 := s5.(linked := false);
    assert [Register(ACTOR)][..1] == [Register(ACTOR)] && [] + [Register(ACTOR)] == [Register(ACTOR)];
    assert Step(EXAMPLE, s3, ReqRegister(ACTOR)) == s4;
    assert Step(EXAMPLE, s4, Cut(1)) == s5;
    Then(EXAMPLE, s6, ClientClose, rest, t);
    Then(EXAMPLE, s5, Unlink, [ClientClose] + rest, t);
    Then(EXAMPLE, s4, Cut(1), [Unlink] + ([ClientClose] + rest), t);
    Then(EXAMPLE, s3, ReqRegister(ACTOR), [Cut(1)] + ([Unlink] + ([ClientClose] + rest)), t);
    ReachAuthed([ReqRegister(ACTOR)] + ([Cut(1)] + ([Unlink] + ([ClientClose] + rest))), s3, t);
  }

  lemma ReachAuthed(rest: seq<Event>, s3: Sys, t: Sys)
    requires s3 == INIT.(server := EMPTY.(authed := {0}), chans := map[0 := []], next := 1,
                         conn := Some(0), linked := true, up := true, authed := true)
    requires Reaches(EXAMPLE, s3, rest, t)
    ensures exists evs :: Reaches(EXAMPLE, INIT, evs, t)
  {
    var s1 := INIT.(conn := Some(0), next := 1, chans := map[0 := [AuthReq]], linked := true, up := true);
    var s2 := s1.(server := EMPTY.(authed := {0}), chans := map[0 := []], reply := true);
    assert [AuthReq][1..] == [];
    assert Step(EXAMPLE, s1, Deliver(0)) == s2;
    assert Step(EXAMPLE, s2, Reply([])) == s3;
    Then(EXAMPLE, s2, Reply([]), rest, t);
    Then(EXAMPLE, s1, Deliver(0), [Reply([])] + rest, t);
    Then(EXAMPLE, INIT, Connect, [Deliver(0)] + ([Reply([])] + rest), t);
  }

  /** The successor connection has registered the actor; the old request is still unhandled. */
  const TAKEN_OVER := LEFT_BEHIND.(
    server := Registered(EMPTY.(authed := {0, 1}), 1, ACTOR, EXAMPLE.info),
    chans := map[0 := [Register(ACTOR)], 1 := []], next := 2,
    conn := Some(1), linked := true, up := true, authed := true)

  /** The successor connection has sent the registration again. */
  const RESENT := LEFT_BEHIND.(
    server := EMPTY.(authed := {0, 1}),
    chans := map[0 := [Register(ACTOR)], 1 := [Register(ACTOR)]], next := 2,
    conn := Some(1), linked := true, up := true, authed := true)

  lemma ReachHandled(rest: seq<Event>, t: Sys)
    requires Reaches(EXAMPLE, TAKEN_OVER, rest, t)
    ensures Reaches(EXAMPLE, RESENT, [Deliver(1)] + rest, t)
  {
    assert [Register(ACTOR)][1..] == [];
    assert Step(EXAMPLE, RESENT, Deliver(1)) == TAKEN_OVER;
    Then(EXAMPLE, RESENT, Deliver(1), rest, t);
  }

  lemma ReachTakenOver(rest: seq<Event>, t: Sys)
    requires Reaches(EXAMPLE, TAKEN_OVER, rest, t)
    ensures exists evs :: Reaches(EXAMPLE, LEFT_BEHIND, evs, t)
  {
    var s8 := LEFT_BEHIND.(conn := Some(1), next := 2, linked := true, up := true,
                          chans := map[0 := [Register(ACTOR)], 1 := [AuthReq]]);
    var s9 := s8.(server := EMPTY.(authed := {0, 1}), reply := true,
                  chans := map[0 := [Register(ACTOR)], 1 := []]);
    var s10 := RESENT;
    assert [AuthReq][1..] == [];
    assert Regs([ACTOR]) == [Register(ACTOR)] && [] + [Register(ACTOR)] == [Register(ACTOR)] by {
      assert [ACTOR][1..] == [];
    }
    assert Step(EXAMPLE, s9, Reply([ACTOR])) == s10;
    assert Step(EXAMPLE, s8, Deliver(1)) == s9;
    ReachHandled(rest, t);
    Then(EXAMPLE, s9, Reply([ACTOR]), [Deliver(1)] + rest, t);
    Then(EXAMPLE, s8, Deliver(1), [Reply([ACTOR])] + ([Deliver(1)] + rest), t);
    Then(EXAMPLE, LEFT_BEHIND, Connect, [Deliver(1)] + ([Reply([ACTOR])] + ([Deliver(1)] + rest)), t);
  }

  /** Convergence can therefore fail: this run ends settled, with the client owning an actor that
      the directory does not list. */
  lemma ConvergenceCanFail()
    ensures exists evs, t :: Reaches(EXAMPLE, INIT, evs, t) && Settled(t)
                             && ACTOR in Wanted(EXAMPLE, t.owned) && ACTOR !in t.server.directory
  {
    var late := [Deliver(0), ServerClose(0)];
    TakenOverInv();
    LateRegistrationSteals(EXAMPLE, TAKEN_OVER, 0, ACTOR);
    var t := Steps(EXAMPLE, TAKEN_OVER, late);
    ReachTakenOver(late, t);
    var evs :| Reaches(EXAMPLE, LEFT_BEHIND, evs, t);
    ReachLeftBehind(evs, t);
  }

  lemma TakenOverInv()
    ensures Inv(EXAMPLE, TAKEN_OVER)
  {
    assert Reaches(EXAMPLE, TAKEN_OVER, [], TAKEN_OVER);
    ReachTakenOver([], TAKEN_OVER);
    var evs :| Reaches(EXAMPLE, LEFT_BEHIND, evs, TAKEN_OVER);
    ReachLeftBehind(evs, TAKEN_OVER);
    var all :| Reaches(EXAMPLE, INIT, all, TAKEN_OVER);
    StepsInv(EXAMPLE, INIT, all);
  }
}
