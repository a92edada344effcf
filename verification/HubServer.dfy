/** The actor directory's server: which connection owns which actor, what the directory lists, and
    how registration, takeover and a late close keep the two in step. */
module HubServer {
  import opened Wrappers

  datatype LucencyID = LucencyID(nodeID: string, actorKey: string)

  datatype Error =
    | NotAuthed | InvalidActorKey | InvalidNodeId | NodeInfoRequired | RpcAddressRequired
    | NodeIDMismatch | InvalidOpCode | ActorNotFound

  datatype Result<T> = Ok(value: T) | Err(error: Error)

  predicate NameChar(c: char) {
    'a' <= c <= 'z' || 'A' <= c <= 'Z' || '0' <= c <= '9' || c == '_' || c == '-'
  }

  predicate ValidName(s: string) {
    s != "" && forall i :: 0 <= i < |s| ==> NameChar(s[i])
  }

  function NewLucencyID(nodeID: string, actorKey: string): (r: Result<LucencyID>)
    ensures r.Ok? <==> ValidName(nodeID) && ValidName(actorKey)
  {
    if !ValidName(actorKey) then Err(InvalidActorKey)
    else if !ValidName(nodeID) then Err(InvalidNodeId)
    else Ok(LucencyID(nodeID, actorKey))
  }

  datatype MemberInfo = MemberInfo(nodeID: string, nodeType: string, address: string, rpcAddress: string)

  datatype RegisterActorReq =
    RegisterActorReq(opCode: int, nodeID: string, actorKey: string, nodeInfo: Option<MemberInfo>)

  datatype Server = Server(
    authed: set<nat>,
    connRegs: map<nat, set<LucencyID>>,
    actorOwner: map<LucencyID, nat>,
    nodeMeta: map<string, MemberInfo>,
    directory: map<LucencyID, string>)
  {
    function Regs(c: nat): set<LucencyID> {
      if c in connRegs then connRegs[c] else {}
    }

    predicate Owns(c: nat, l: LucencyID) {
      l in actorOwner && actorOwner[l] == c
    }

    function OwnedBy(c: nat): set<LucencyID> {
      set l | l in actorOwner && actorOwner[l] == c
    }
  }

  /** Why a request is refused; None when it is carried out. */
  function Refusal(s: Server, c: nat, req: RegisterActorReq): Option<Error> {
    if c !in s.authed then Some(NotAuthed) else Malformed(req)
  }

  function Malformed(req: RegisterActorReq): Option<Error> {
    var id := NewLucencyID(req.nodeID, req.actorKey);
    if id.Err? then Some(id.error)
    else if req.opCode == 1 then
      if req.nodeInfo.None? then Some(NodeInfoRequired)
      else if req.nodeInfo.value.rpcAddress == "" then Some(RpcAddressRequired)
      else if req.nodeInfo.value.nodeID != "" && req.nodeInfo.value.nodeID != req.nodeID then
        Some(NodeIDMismatch)
      else None
    else if req.opCode == 2 then None
    else Some(InvalidOpCode)
  }

  /** Which error a request gets, each with its own cause. */
  lemma RefusalReasons(s: Server, c: nat, req: RegisterActorReq)
    ensures var e := Refusal(s, c, req);
      var named := c in s.authed && ValidName(req.nodeID) && ValidName(req.actorKey);
      && (e == Some(NotAuthed) <==> c !in s.authed)
      && (e == Some(InvalidActorKey) <==> c in s.authed && !ValidName(req.actorKey))
      && (e == Some(InvalidNodeId) <==> c in s.authed && ValidName(req.actorKey) && !ValidName(req.nodeID))
      && (e == Some(InvalidOpCode) <==> named && req.opCode != 1 && req.opCode != 2)
      && (e == Some(NodeInfoRequired) <==> named && req.opCode == 1 && req.nodeInfo.None?)
      && (e == Some(RpcAddressRequired) <==>
            named && req.opCode == 1 && req.nodeInfo.Some? && req.nodeInfo.value.rpcAddress == "")
      && (e == Some(NodeIDMismatch) <==>
            && named && req.opCode == 1 && req.nodeInfo.Some? && req.nodeInfo.value.rpcAddress != ""
            && req.nodeInfo.value.nodeID != "" && req.nodeInfo.value.nodeID != req.nodeID)
  {
  }

  function Without(m: map<nat, set<LucencyID>>, c: nat, l: LucencyID): map<nat, set<LucencyID>> {
    if c in m then m[c := m[c] - {l}] else m
  }

  /** The connection takes the actor over from whoever has it, and the node's data is refreshed. */
  function Registered(s: Server, c: nat, l: LucencyID, info: MemberInfo): Server {
    var regs := s.connRegs[c := s.Regs(c) + {l}];
    s.(directory := s.directory[l := info.rpcAddress],
       connRegs := if l in s.actorOwner && s.actorOwner[l] != c then Without(regs, s.actorOwner[l], l) else regs,
       actorOwner := s.actorOwner[l := c],
       nodeMeta := s.nodeMeta[l.nodeID := if info.nodeID == "" then info.(nodeID := l.nodeID) else info])
  }

  /** Without effect on an actor that another connection has taken over. */
  function Unregistered(s: Server, c: nat, l: LucencyID): Server {
    var t := s.(connRegs := Without(s.connRegs, c, l));
    if l !in s.actorOwner || s.actorOwner[l] == c then
      t.(actorOwner := s.actorOwner - {l}, directory := s.directory - {l})
    else
      t
  }

  function Handled(s: Server, c: nat, req: RegisterActorReq): Server {
    if Refusal(s, c, req).Some? then s
    else if req.opCode == 1 then Registered(s, c, LucencyID(req.nodeID, req.actorKey), req.nodeInfo.value)
    else Unregistered(s, c, LucencyID(req.nodeID, req.actorKey))
  }

  function Authenticated(s: Server, c: nat, ok: bool): Server {
    if ok then s.(authed := s.authed + {c}) else s
  }

  function Mine(owner: map<LucencyID, nat>, c: nat, regs: set<LucencyID>): set<LucencyID> {
    set l | l in regs && l in owner && owner[l] == c
  }

  function Closed(s: Server, c: nat): Server {
    var mine := Mine(s.actorOwner, c, s.Regs(c));
    s.(authed := s.authed - {c}, connRegs := s.connRegs - {c},
       actorOwner := s.actorOwner - mine, directory := s.directory - mine)
  }

  /** The ownership invariant. */
  ghost predicate Inv(s: Server) {
    && (forall c, l :: l in s.Regs(c) <==> s.Owns(c, l))
    && s.directory.Keys == s.actorOwner.Keys
    && (forall l :: l in s.actorOwner ==> s.actorOwner[l] in s.authed)
    && (forall l :: l in s.directory ==> Described(s, l))
  }

  /** The node of a listed actor has data that passed the registration checks. */
  ghost predicate Described(s: Server, l: LucencyID) {
    && ValidName(l.nodeID) && ValidName(l.actorKey)
    && l.nodeID in s.nodeMeta
    && s.nodeMeta[l.nodeID].nodeID == l.nodeID
    && s.nodeMeta[l.nodeID].rpcAddress != ""
    && l in s.directory && s.directory[l] != ""
  }

  const EMPTY := Server({}, map[], map[], map[], map[])

  lemma EmptyInv()
    ensures Inv(EMPTY)
  {
  }

  lemma AllNamed(s: Server)
    requires Inv(s)
    ensures forall l :: l in s.actorOwner ==> ValidName(l.nodeID) && ValidName(l.actorKey)
  {
    forall l | l in s.actorOwner ensures ValidName(l.nodeID) && ValidName(l.actorKey) {
      assert Described(s, l);
    }
  }

  lemma RegisteredRegs(s: Server, c: nat, l: LucencyID, info: MemberInfo, d: nat, k: LucencyID)
    requires forall c, l :: l in s.Regs(c) <==> s.Owns(c, l)
    ensures k in Registered(s, c, l, info).Regs(d) <==> Registered(s, c, l, info).Owns(d, k)
  {
    assert k in s.Regs(d) <==> s.Owns(d, k);
  }

  lemma RegisteredInv(s: Server, c: nat, l: LucencyID, info: MemberInfo)
    requires Inv(s) && c in s.authed && ValidName(l.nodeID) && ValidName(l.actorKey)
    requires info.rpcAddress != "" && (info.nodeID == "" || info.nodeID == l.nodeID)
    ensures Inv(Registered(s, c, l, info))
  {
    var t := Registered(s, c, l, info);
    forall d, k ensures k in t.Regs(d) <==> t.Owns(d, k) {
      RegisteredRegs(s, c, l, info, d, k);
    }
    forall k | k in t.directory ensures Described(t, k) {
      RegisteredDescribed(s, c, l, info, k);
    }
  }

  lemma RegisteredDescribed(s: Server, c: nat, l: LucencyID, info: MemberInfo, k: LucencyID)
    requires Inv(s) && c in s.authed && ValidName(l.nodeID) && ValidName(l.actorKey)
    requires info.rpcAddress != "" && (info.nodeID == "" || info.nodeID == l.nodeID)
    requires k in Registered(s, c, l, info).directory
    ensures Described(Registered(s, c, l, info), k)
  {
    assert k != l ==> Described(s, k);
  }

  lemma UnregisteredInv(s: Server, c: nat, l: LucencyID)
    requires Inv(s)
    ensures Inv(Unregistered(s, c, l))
  {
    var t := Unregistered(s, c, l);
    forall d, k ensures k in t.Regs(d) <==> t.Owns(d, k) {
      assert k in s.Regs(d) <==> s.Owns(d, k);
    }
    forall k | k in t.directory ensures Described(t, k) {
      assert Described(s, k);
    }
  }

  lemma HandledInv(s: Server, c: nat, req: RegisterActorReq)
    requires Inv(s)
    ensures Inv(Handled(s, c, req))
  {
    var l := LucencyID(req.nodeID, req.actorKey);
    if Refusal(s, c, req).None? {
      if req.opCode == 1 {
        RegisteredInv(s, c, l, req.nodeInfo.value);
      } else {
        UnregisteredInv(s, c, l);
      }
    }
  }

  lemma ClosedInv(s: Server, c: nat)
    requires Inv(s)
    ensures Inv(Closed(s, c))
  {
    var t := Closed(s, c);
    forall d, k ensures k in t.Regs(d) <==> t.Owns(d, k) {
      assert k in s.Regs(d) <==> s.Owns(d, k);
    }
    forall l | l in t.actorOwner ensures t.actorOwner[l] in t.authed {
      assert l in s.Regs(s.actorOwner[l]) by {
        assert s.Owns(s.actorOwner[l], l);
      }
    }
    forall k | k in t.directory ensures Described(t, k) {
      assert Described(s, k);
    }
  }

  /** Closing a connection removes exactly what it still owns: an actor that a successor has taken
      over stays listed, with its owner and its address. */
  lemma CloseSparesSuccessors(s: Server, c: nat, l: LucencyID)
    requires Inv(s)
    ensures l in Closed(s, c).directory <==> l in s.directory && !s.Owns(c, l)
    ensures l in Closed(s, c).directory ==>
      Closed(s, c).directory[l] == s.directory[l] && Closed(s, c).actorOwner[l] == s.actorOwner[l]
  {
    assert l in s.Regs(c) <==> s.Owns(c, l);
  }

  datatype Event =
    | Auth(c: nat, ok: bool)
    | Request(c: nat, req: RegisterActorReq)
    | Close(c: nat)

  function Next(s: Server, ev: Event): Server {
    match ev
    case Auth(c, ok) => Authenticated(s, c, ok)
    case Request(c, req) => Handled(s, c, req)
    case Close(c) => Closed(s, c)
  }

  function Run(s: Server, evs: seq<Event>): Server
    decreases |evs|
  {
    if evs == [] then s else Run(Next(s, evs[0]), evs[1..])
  }

  lemma AuthInv(s: Server, c: nat, ok: bool)
    requires Inv(s)
    ensures Inv(Authenticated(s, c, ok))
  {
    forall l | l in s.directory ensures Described(Authenticated(s, c, ok), l) {
      assert Described(s, l);
    }
    assert forall d, l :: l in Authenticated(s, c, ok).Regs(d) <==> l in s.Regs(d);
  }

  lemma {:induction false} RunInv(s: Server, evs: seq<Event>)
    requires Inv(s)
    ensures Inv(Run(s, evs))
    decreases |evs|
  {
    if evs != [] {
      match evs[0] {
        case Auth(c, ok) => AuthInv(s, c, ok);
        case Request(c, req) => HandledInv(s, c, req);
        case Close(c) => ClosedInv(s, c);
      }
      RunInv(Next(s, evs[0]), evs[1..]);
    }
  }

  /** In every reachable state, whatever connections send and in whatever order they close:
      registered-by and owned-by agree, the directory lists exactly the owned actors, their owners
      are authenticated, and each listed actor's node has data that passed the checks. */
  lemma AlwaysConsistent(evs: seq<Event>)
    ensures var s := Run(EMPTY, evs);
      && (forall c, l :: l in s.Regs(c) <==> s.Owns(c, l))
      && s.directory.Keys == s.actorOwner.Keys
      && (forall l :: l in s.actorOwner ==> s.actorOwner[l] in s.authed)
      && (forall l :: l in s.directory ==> Described(s, l))
      && Inv(s)
  {
    EmptyInv();
    RunInv(EMPTY, evs);
  }

  /** The directory itself: RemoteActorMgr. */
  class RemoteActorMgr {
    var actors: map<LucencyID, string>

    constructor ()
      ensures actors == map[]
    {
      actors := map[];
    }

    method RegisterActor(l: LucencyID, rpcAddr: string) returns (err: Option<Error>)
      modifies this
      ensures err.None? <==> ValidName(l.nodeID) && ValidName(l.actorKey)
      ensures actors == if err.None? then old(actors)[l := rpcAddr] else old(actors)
    {
      var id := NewLucencyID(l.nodeID, l.actorKey);
      if id.Err? {
        return Some(id.error);
      }
      actors := actors[id.value := rpcAddr];
      err := None;
    }

    method UnregisterActor(l: LucencyID) returns (err: Option<Error>)
      modifies this
      ensures err.None? <==> ValidName(l.nodeID) && ValidName(l.actorKey)
      ensures actors == if err.None? then old(actors) - {l} else old(actors)
    {
      var id := NewLucencyID(l.nodeID, l.actorKey);
      if id.Err? {
        return Some(id.error);
      }
      actors := actors - {id.value};
      err := None;
    }

    method FindActor(l: LucencyID) returns (r: Result<string>)
      ensures r == if l in actors then Ok(actors[l]) else Err(ActorNotFound)
    {
      if l !in actors {
        return Err(ActorNotFound);
      }
      return Ok(actors[l]);
    }

    /** The listed actors of a node, each once. */
    method GetAllActorsOfNode(nodeID: string) returns (list: seq<LucencyID>)
      ensures forall l :: l in list <==> l in actors && l.nodeID == nodeID
      ensures forall i, j :: 0 <= i < j < |list| ==> list[i] != list[j]
    {
      list := [];
      var rest := actors.Keys;
      while rest != {}
        invariant rest <= actors.Keys
        invariant forall l :: l in list <==> l in actors.Keys - rest && l.nodeID == nodeID
        invariant forall i, j :: 0 <= i < j < |list| ==> list[i] != list[j]
        decreases |rest|
      {
        var l :| l in rest;
        if l.nodeID == nodeID {
          list := list + [l];
        }
        rest := rest - {l};
      }
    }
  }

  class ServerHandler {
    const password: string
    const mgr: RemoteActorMgr
    var authed: set<nat>
    var connRegs: map<nat, set<LucencyID>>
    var actorOwner: map<LucencyID, nat>
    var nodeMeta: map<string, MemberInfo>

    constructor (password: string)
      ensures State() == EMPTY && this.password == password && fresh(mgr)
    {
      this.password := password;
      this.mgr := new RemoteActorMgr();
      this.authed, this.connRegs, this.actorOwner, this.nodeMeta := {}, map[], map[], map[];
    }

    ghost function State(): Server
      reads this, mgr
    {
      Server(authed, connRegs, actorOwner, nodeMeta, mgr.actors)
    }

    method OnAuthReq(c: nat, pwd: string) returns (ok: bool)
      modifies this
      ensures ok == (pwd == password)
      ensures authed == if pwd == password then old(authed) + {c} else old(authed)
      ensures State() == old(State()).(authed := authed)
      ensures State() == Authenticated(old(State()), c, ok) && (old(Inv(State())) ==> Inv(State()))
    {
      if pwd != password {
        return false;
      }
      if Inv(State()) {
        AuthInv(State(), c, true);
      }
      authed := authed + {c};
      return true;
    }

    method OnClose(c: nat)
      requires Inv(State())
      modifies this, mgr
      ensures State() == Closed(old(State()), c) && Inv(State())
    {
      ClosedInv(State(), c);
      AllNamed(State());
      var regs := if c in connRegs then connRegs[c] else {};
      connRegs := connRegs - {c};
      authed := authed - {c};
      Evict(c, regs);
      assert old(State()).Regs(c) == regs;
    }

    /** Of the actors in regs, drops those that c owns. */
    method Evict(c: nat, regs: set<LucencyID>)
      requires forall l :: l in actorOwner ==> ValidName(l.nodeID) && ValidName(l.actorKey)
      modifies `actorOwner, mgr
      ensures actorOwner == old(actorOwner) - Mine(old(actorOwner), c, regs)
      ensures mgr.actors == old(mgr.actors) - Mine(old(actorOwner), c, regs)
    {
      var rest := regs;
      ghost var gone: set<LucencyID> := {};
      while rest != {}
        invariant rest <= regs
        invariant gone == Mine(old(actorOwner), c, regs - rest)
        invariant actorOwner == old(actorOwner) - gone && mgr.actors == old(mgr.actors) - gone
        decreases |rest|
      {
        var l :| l in rest;
        if l in actorOwner && actorOwner[l] == c {
          actorOwner := actorOwner - {l};
          var _ := mgr.UnregisterActor(l);
          gone := gone + {l};
        }
        rest := rest - {l};
      }
      assert regs - rest == regs;
    }

    method OnRegisterActorReq(c: nat, req: RegisterActorReq) returns (err: Option<Error>)
      requires Inv(State())
      modifies this, mgr
      ensures err == Refusal(old(State()), c, req)
      ensures State() == Handled(old(State()), c, req) && Inv(State())
      ensures err == Some(NotAuthed) <==> c !in old(authed)
      ensures err.None? ==> req.opCode == 1 || req.opCode == 2
      ensures err.None? && req.opCode == 1 ==>
        var l := LucencyID(req.nodeID, req.actorKey);
        && actorOwner == old(actorOwner)[l := c]
        && mgr.actors == old(mgr.actors)[l := req.nodeInfo.value.rpcAddress]
      ensures err.None? && req.opCode == 2 ==>
        var gone := Mine(old(actorOwner), c, {LucencyID(req.nodeID, req.actorKey)});
        actorOwner == old(actorOwner) - gone && mgr.actors == old(mgr.actors) - gone
      ensures err.Some? ==> State() == old(State())
    {
      AllNamed(State());
      HandledInv(State(), c, req);
      if c !in authed {
        return Some(NotAuthed);
      }
      var id := NewLucencyID(req.nodeID, req.actorKey);
      if id.Err? {
        return Some(id.error);
      }
      var l := id.value;
      if req.opCode == 1 {
        if req.nodeInfo.None? {
          return Some(NodeInfoRequired);
        }
        if req.nodeInfo.value.rpcAddress == "" {
          return Some(RpcAddressRequired);
        }
        var nid := req.nodeInfo.value.nodeID;
        if nid == "" {
          nid := req.nodeID;
        }
        if nid != req.nodeID {
          return Some(NodeIDMismatch);
        }
        err := Register(c, l, req.nodeInfo.value);
      } else if req.opCode == 2 {
        err := Unregister(c, l);
      } else {
        return Some(InvalidOpCode);
      }
    }

    method Register(c: nat, l: LucencyID, info: MemberInfo) returns (err: Option<Error>)
      requires ValidName(l.nodeID) && ValidName(l.actorKey)
      modifies this, mgr
      ensures err == None && State() == Registered(old(State()), c, l, info)
    {
      err := mgr.RegisterActor(l, info.rpcAddress);
      if err.Some? {
        return;
      }
      Claim(c, l);
      actorOwner := actorOwner[l := c];
      nodeMeta := nodeMeta[l.nodeID := if info.nodeID == "" then info.(nodeID := l.nodeID) else info];
    }

    /** The actor joins the connection's registrations and leaves those of its former owner. */
    method Claim(c: nat, l: LucencyID)
      modifies `connRegs
      ensures var regs := old(connRegs)[c := old(State()).Regs(c) + {l}];
        connRegs == if l in actorOwner && actorOwner[l] != c then Without(regs, actorOwner[l], l) else regs
    {
      if c !in connRegs {
        connRegs := connRegs[c := {}];
      }
      connRegs := connRegs[c := connRegs[c] + {l}];
      if l in actorOwner && actorOwner[l] != c {
        var prev := actorOwner[l];
        if prev in connRegs {
          connRegs := connRegs[prev := connRegs[prev] - {l}];
        }
      }
    }

    method Unregister(c: nat, l: LucencyID) returns (err: Option<Error>)
      requires ValidName(l.nodeID) && ValidName(l.actorKey)
      modifies this, mgr
      ensures err == None && State() == Unregistered(old(State()), c, l)
    {
      if c in connRegs {
        connRegs := connRegs[c := connRegs[c] - {l}];
      }
      err := None;
      if l !in actorOwner || actorOwner[l] == c {
        actorOwner := actorOwner - {l};
        err := mgr.UnregisterActor(l);
      }
    }

    /** A lookup succeeds exactly for a listed actor, and answers with usable data of its node. */
    method OnFindActorReq(c: nat, nodeID: string, actorKey: string) returns (r: Result<MemberInfo>)
      requires Inv(State())
      ensures r.Ok? <==> c in authed && LucencyID(nodeID, actorKey) in mgr.actors
      ensures r.Ok? ==> r.value.nodeID == nodeID && r.value.rpcAddress != "" && r.value == nodeMeta[nodeID]
      ensures r.Err? ==> r.error == if c !in authed then NotAuthed
                                    else if !ValidName(actorKey) then InvalidActorKey
                                    else if !ValidName(nodeID) then InvalidNodeId
                                    else ActorNotFound
    {
      if c !in authed {
        return Err(NotAuthed);
      }
      assert LucencyID(nodeID, actorKey) in mgr.actors ==> Described(State(), LucencyID(nodeID, actorKey));
      var id := NewLucencyID(nodeID, actorKey);
      if id.Err? {
        return Err(id.error);
      }
      var found := mgr.FindActor(id.value);
      if found.Err? {
        return Err(found.error);
      }
      var info := NodeInfoForLookup(nodeID, found.value);
      return Ok(info);
    }

    method NodeInfoForLookup(nodeID: string, rpcAddr: string) returns (info: MemberInfo)
      ensures nodeID in nodeMeta ==> info == nodeMeta[nodeID]
      ensures nodeID !in nodeMeta ==> info == MemberInfo(nodeID, "", "", rpcAddr)
    {
      if nodeID in nodeMeta {
        return nodeMeta[nodeID];
      }
      return MemberInfo(nodeID, "", "", rpcAddr);
    }

    /** The listing of a node: its listed actors, each once, with the node's data when known. */
    method OnGetAllActorsOfNodeReq(c: nat, nodeID: string)
      returns (r: Result<(MemberInfo, seq<LucencyID>)>)
      requires Inv(State())
      ensures r.Ok? <==> c in authed
      ensures r.Err? ==> r.error == NotAuthed
      ensures r.Ok? ==> forall l :: l in r.value.1 <==> l in mgr.actors && l.nodeID == nodeID
      ensures r.Ok? ==> forall i, j :: 0 <= i < j < |r.value.1| ==> r.value.1[i] != r.value.1[j]
      ensures r.Ok? && r.value.1 != [] ==> r.value.0.nodeID == nodeID && r.value.0.rpcAddress != ""
      ensures r.Ok? ==>
        r.value.0 == if nodeID in nodeMeta then nodeMeta[nodeID] else MemberInfo(nodeID, "", "", "")
    {
      if c !in authed {
        return Err(NotAuthed);
      }
      var list := mgr.GetAllActorsOfNode(nodeID);
      var info := MemberInfo(nodeID, "", "", "");
      if nodeID in nodeMeta || |list| == 0 {
        info := NodeInfoForLookup(nodeID, "");
      } else {
        info := NodeInfoForLookup(list[0].nodeID, mgr.actors[list[0]]);
      }
      if list != [] {
        assert list[0] in list;
        assert Described(State(), list[0]);
      }
      return Ok((info, list));
    }
  }
}
