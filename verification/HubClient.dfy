/** The actor directory's client: the list of owned actors that survives a lost connection, and the
    requests under way, which do not. */
module HubClient {
  import opened HubServer
  import opened HubConvergence

  /** The transport: sending fails once the connection is known to be gone. */
  class Link {
    var linked: bool
    var outbox: seq<Msg>

    constructor ()
      ensures linked && outbox == []
    {
      linked, outbox := true, [];
    }

    method SendMsg(m: Msg) returns (ok: bool)
      modifies `outbox
      ensures ok == linked
      ensures outbox == if ok then old(outbox) + [m] else old(outbox)
    {
      if linked {
        outbox := outbox + [m];
      }
      return linked;
    }
  }

  class HubClient {
    const link: Link
    var ownedActors: set<LucencyID>
    var reqMap: map<nat, Msg>
    var autoReqId: nat
    var isAuthed: bool

    constructor (link: Link)
      ensures this.link == link && !isAuthed && ownedActors == {} && Valid()
    {
      this.link := link;
      this.ownedActors, this.reqMap, this.autoReqId, this.isAuthed := {}, map[], 0, false;
    }

    /** Request identifiers are never reused. */
    ghost predicate Valid()
      reads this
    {
      forall id :: id in reqMap ==> id <= autoReqId
    }

    method SendRequest(m: Msg) returns (ok: bool)
      modifies link`outbox
      ensures ok == (isAuthed && link.linked)
      ensures link.outbox == if ok then old(link.outbox) + [m] else old(link.outbox)
    {
      if !isAuthed {
        return false;
      }
      ok := link.SendMsg(m);
    }

    /** Sends m and, if that works, records it under a fresh identifier. */
    method Request(m: Msg) returns (ok: bool)
      requires Valid()
      modifies `reqMap, `autoReqId, link`outbox
      ensures Valid() && autoReqId == old(autoReqId) + 1
      ensures ok == (isAuthed && link.linked)
      ensures link.outbox == if ok then old(link.outbox) + [m] else old(link.outbox)
      ensures reqMap == if ok then old(reqMap)[autoReqId := m] else old(reqMap)
      ensures autoReqId !in old(reqMap)
    {
      autoReqId := autoReqId + 1;
      ok := SendRequest(m);
      if ok {
        reqMap := reqMap[autoReqId := m];
      }
    }

    /** An actor is owned from the moment its registration was sent. */
    method ReqRegisterActor(l: LucencyID) returns (ok: bool)
      requires Valid()
      modifies `reqMap, `autoReqId, `ownedActors, link`outbox
      ensures Valid() && ok == (isAuthed && link.linked)
      ensures ownedActors == if ok then old(ownedActors) + {l} else old(ownedActors)
      ensures link.outbox == if ok then old(link.outbox) + [Register(l)] else old(link.outbox)
      ensures ok ==> autoReqId !in old(reqMap) && reqMap == old(reqMap)[autoReqId := Register(l)]
      ensures !ok ==> reqMap == old(reqMap)
    {
      if !isAuthed {
        return false;
      }
      ok := Request(Register(l));
      if ok {
        ownedActors := ownedActors + {l};
      }
    }

    method ReqUnregisterActor(l: LucencyID) returns (ok: bool)
      requires Valid()
      modifies `reqMap, `autoReqId, `ownedActors, link`outbox
      ensures Valid() && ok == (isAuthed && link.linked)
      ensures ownedActors == if ok then old(ownedActors) - {l} else old(ownedActors)
      ensures link.outbox == if ok then old(link.outbox) + [Unregister(l)] else old(link.outbox)
      ensures ok ==> autoReqId !in old(reqMap) && reqMap == old(reqMap)[autoReqId := Unregister(l)]
      ensures !ok ==> reqMap == old(reqMap)
    {
      if !isAuthed {
        return false;
      }
      ok := Request(Unregister(l));
      if ok {
        ownedActors := ownedActors - {l};
      }
    }

    method OnConnect()
      modifies link`outbox
      ensures link.outbox == if link.linked then old(link.outbox) + [AuthReq] else old(link.outbox)
    {
      var _ := link.SendMsg(AuthReq);
    }

    /** The owned actors outlive the connection; the requests under way do not. */
    method OnClose()
      modifies `isAuthed, `reqMap
      ensures !isAuthed && reqMap == map[] && Valid()
    {
      isAuthed := false;
      if |reqMap| > 0 {
        reqMap := map[];
      }
    }

    /** OnRaw(AuthResp): on success every owned actor is registered again, once each, in some
        order, and no request under way is forgotten. */
    method OnAuthResp(code: int) returns (ghost ids: seq<LucencyID>)
      requires Valid()
      modifies `isAuthed, `reqMap, `autoReqId, link`outbox
      ensures Valid()
      ensures code != 0 ==> isAuthed == old(isAuthed) && link.outbox == old(link.outbox) && reqMap == old(reqMap)
      ensures code == 0 ==> isAuthed && Enumerates(ids, ownedActors)
      ensures code == 0 ==>
        link.outbox == old(link.outbox) + (if link.linked then Regs(ids) else [])
      ensures forall id :: id in old(reqMap) ==> id in reqMap && reqMap[id] == old(reqMap)[id]
      ensures code == 0 && link.linked ==> |reqMap| == old(|reqMap|) + |ids|
    {
      ids := [];
      if code != 0 {
        return;
      }
      isAuthed := true;
      ids := ResendOwnedActors();
    }

    method ResendOwnedActors() returns (ghost ids: seq<LucencyID>)
      requires Valid() && isAuthed
      modifies `reqMap, `autoReqId, link`outbox
      ensures Valid() && Enumerates(ids, ownedActors)
      ensures link.outbox == old(link.outbox) + (if link.linked then Regs(ids) else [])
      ensures forall id :: id in old(reqMap) ==> id in reqMap && reqMap[id] == old(reqMap)[id]
      ensures link.linked ==> |reqMap| == old(|reqMap|) + |ids|
    {
      ids := [];
      var rest := ownedActors;
      while rest != {}
        invariant Valid() && rest <= ownedActors
        invariant forall l :: l in ids <==> l in ownedActors - rest
        invariant forall i, j :: 0 <= i < j < |ids| ==> ids[i] != ids[j]
        invariant link.outbox == old(link.outbox) + (if link.linked then Regs(ids) else [])
        invariant forall id :: id in old(reqMap) ==> id in reqMap && reqMap[id] == old(reqMap)[id]
        invariant link.linked ==> |reqMap| == old(|reqMap|) + |ids|
        decreases |rest|
      {
        var l :| l in rest;
        assert forall i :: 0 <= i < |ids| ==> ids[i] in ids && ids[i] != l;
        rest := rest - {l};
        RegsSnoc(ids, l);
        ids := ids + [l];
        var _ := Request(Register(l));
      }
    }

    /** A successful answer settles its request; a refusal leaves it for the retry timer. */
    method OnRegisterActorResp(reqID: nat, refused: bool)
      requires Valid()
      modifies `reqMap
      ensures Valid()
      ensures reqMap == if refused then old(reqMap) else old(reqMap) - {reqID}
    {
      if !refused {
        reqMap := reqMap - {reqID};
      }
    }

    /** The retry timer: sends the request again only if it is still recorded, so never one from
        before the last close, and only if the actor still runs here. */
    method OnRetryTimer(reqID: nat, runsHere: LucencyID -> bool) returns (sent: bool)
      requires Valid()
      modifies link`outbox
      ensures sent <==>
        && reqID in reqMap && !reqMap[reqID].AuthReq? && runsHere(reqMap[reqID].l)
        && isAuthed && link.linked
      ensures link.outbox == if sent then old(link.outbox) + [reqMap[reqID]] else old(link.outbox)
    {
      if reqID !in reqMap || reqMap[reqID].AuthReq? || !runsHere(reqMap[reqID].l) {
        return false;
      }
      sent := SendRequest(reqMap[reqID]);
    }
  }

  lemma {:induction false} RegsSnoc(ids: seq<LucencyID>, l: LucencyID)
    ensures Regs(ids + [l]) == Regs(ids) + [Register(l)]
    decreases |ids|
  {
    if ids == [] {
      assert [] + [l] == [l] && [l][1..] == [];
    } else {
      assert (ids + [l])[1..] == ids[1..] + [l];
      RegsSnoc(ids[1..], l);
    }
  }
}
