/** The discovery's members and the index of members by node type, kept in step through adds, type
    changes, removals and timeout sweeps. */
module Membership {
  import opened Wrappers

  /** A node id or node type. */
  datatype Name = Name(text: string)

  const NO_NAME := Name("")

  datatype MemberInfo =
    MemberInfo(nodeID: Name, nodeType: Name, address: string, rpcAddress: string, weight: int, status: int)

  class Member {
    const nodeID: Name
    var info: MemberInfo

    constructor (info: MemberInfo)
      ensures this.info == info && nodeID == info.nodeID
    {
      this.nodeID, this.info := info.nodeID, info;
    }
  }

  type Index = map<Name, seq<Name>>

  function ListOf<T>(m: map<Name, seq<T>>, t: Name): seq<T> {
    if t in m then m[t] else []
  }

  function Cut<T>(s: seq<T>, i: nat): (c: seq<T>)
    requires i < |s|
    ensures |c| == |s| - 1 && forall k :: 0 <= k < |c| ==> c[k] == s[if k < i then k else k + 1]
  {
    s[..i] + s[i + 1..]
  }

  /** The member `id` is listed under its type, at pos[id]. */
  ghost predicate ListedAt(types: map<Name, Name>, index: Index, pos: map<Name, nat>, id: Name) {
    && id in types && id in pos && types[id] in index
    && pos[id] < |index[types[id]]| && index[types[id]][pos[id]] == id
  }

  /** The i-th entry of the list of t is a member of that type, listed there. */
  ghost predicate Entry(types: map<Name, Name>, index: Index, pos: map<Name, nat>, t: Name, i: int) {
    && t in index && 0 <= i < |index[t]|
    && var id := index[t][i]; id in types && id in pos && types[id] == t && pos[id] == i
  }

  /** The index agrees with the types: each type lists exactly its members, each once. The triggers
      keep the two halves from feeding each other. */
  ghost predicate Agree(types: map<Name, Name>, index: Index, pos: map<Name, nat>) {
    && pos.Keys == types.Keys
    && (forall id {:trigger ListedAt(types, index, pos, id)} :: id in types ==> ListedAt(types, index, pos, id))
    && (forall t, i {:trigger Entry(types, index, pos, t, i)} ::
          t in index && 0 <= i < |index[t]| ==> Entry(types, index, pos, t, i))
  }

  /** The positions after the member at position i of list t is cut out. */
  ghost function Shifted(types: map<Name, Name>, pos: map<Name, nat>, gone: Name): map<Name, nat>
    requires gone in types && pos.Keys == types.Keys
  {
    map id | id in types && id != gone ::
      if types[id] == types[gone] && pos[id] > pos[gone] then pos[id] - 1 else pos[id]
  }

  lemma AgreeWithout(types: map<Name, Name>, index: Index, pos: map<Name, nat>, id: Name)
    requires Agree(types, index, pos) && ListedAt(types, index, pos, id)
    ensures Agree(types - {id}, index[types[id] := Cut(index[types[id]], pos[id])], Shifted(types, pos, id))
  {
    var t, p := types[id], pos[id];
    assert ListedAt(types, index, pos, id);
    var list := Cut(index[t], p);
    var types', index', pos' := types - {id}, index[t := list], Shifted(types, pos, id);
    forall k | k in types' ensures ListedAt(types', index', pos', k) {
      assert ListedAt(types, index, pos, k);
    }
    forall u, i | u in index' && 0 <= i < |index'[u]| ensures Entry(types', index', pos', u, i) {
      assert Entry(types, index, pos, u, if u == t && i >= p then i + 1 else i);
    }
  }

  lemma AgreeWith(types: map<Name, Name>, index: Index, pos: map<Name, nat>, id: Name, t: Name)
    requires Agree(types, index, pos) && id !in types
    ensures Agree(types[id := t], index[t := ListOf(index, t) + [id]], pos[id := |ListOf(index, t)|])
  {
    var list := ListOf(index, t);
    var types', index', pos' := types[id := t], index[t := list + [id]], pos[id := |list|];
    forall k | k in types' ensures ListedAt(types', index', pos', k) {
      assert k != id ==> ListedAt(types, index, pos, k);
    }
    forall u, i | u in index' && 0 <= i < |index'[u]| ensures Entry(types', index', pos', u, i) {
      assert u != t || i < |list| ==> Entry(types, index, pos, u, i);
    }
  }

  /** The length of a list is the number of members of its type. */
  lemma {:induction false} ListIsType(ids: seq<Name>, all: set<Name>)
    requires forall i, j :: 0 <= i < j < |ids| ==> ids[i] != ids[j]
    requires forall id :: id in ids <==> id in all
    ensures |ids| == |all|
    decreases |ids|
  {
    if ids == [] {
      assert all == {};
    } else {
      ListIsType(ids[1..], all - {ids[0]});
    }
  }

  lemma CountIs(types: map<Name, Name>, index: Index, pos: map<Name, nat>, t: Name)
    requires Agree(types, index, pos)
    ensures |ListOf(index, t)| == |set id | id in types && types[id] == t|
  {
    var list := ListOf(index, t);
    var all := set id | id in types && types[id] == t;
    forall i, j | 0 <= i < j < |list| ensures list[i] != list[j] {
      assert Entry(types, index, pos, t, i) && Entry(types, index, pos, t, j);
    }
    forall id ensures id in list <==> id in all {
      if id in list {
        var i :| 0 <= i < |list| && list[i] == id;
        assert Entry(types, index, pos, t, i);
      }
      if id in all {
        assert ListedAt(types, index, pos, id);
      }
    }
    ListIsType(list, all);
  }

  class MemberMgr {
    var members: map<Name, Member>
    var typeMap: map<Name, seq<Member>>
    ghost var index: Index                // typeMap, with node ids for members
    ghost var pos: map<Name, nat>         // where each member is listed
    ghost var types: map<Name, Name>      // the type each member is listed under
    ghost var infos: map<Name, MemberInfo>    // what is known about each member
    ghost var repr: set<Member>

    constructor ()
      ensures Valid() && infos == map[] && repr == {}
    {
      members, typeMap, index, pos, types, infos, repr := map[], map[], map[], map[], map[], map[], {};
    }

    /** The i-th entry of the list of t is the very member of the map. */
    ghost predicate Backs(t: Name, i: int)
      reads this`typeMap, this`index, this`members
    {
      && t in index && t in typeMap && 0 <= i < |index[t]| == |typeMap[t]|
      && index[t][i] in members
      && typeMap[t][i] == members[index[t][i]]
      && typeMap[t][i].nodeID == index[t][i]
    }

    ghost predicate Backed()
      reads this`typeMap, this`index, this`members
    {
      && typeMap.Keys == index.Keys
      && (forall t :: t in index ==> |index[t]| == |typeMap[t]|)
      && (forall t, i {:trigger Backs(t, i)} :: t in index && 0 <= i < |index[t]| ==> Backs(t, i))
    }

    /** The member is what is known about it, and is listed under the type it has. */
    ghost predicate Typed(id: Name)
      reads this, repr
    {
      && id in members && members[id] in repr && members[id].nodeID == id
      && id in infos && members[id].info == infos[id] && infos[id].nodeID == id
      && id in types && infos[id].nodeType == types[id]
    }

    ghost predicate Valid()
      reads this, repr
    {
      && Backed()
      && types.Keys == infos.Keys == members.Keys
      && (forall id {:trigger Typed(id)} :: id in members ==> Typed(id))
      && Agree(types, index, pos)
    }

    /** The position of a member in the list of its type. */
    method Find(m: Member) returns (i: nat)
      requires Valid() && m.nodeID in members && members[m.nodeID] == m
      ensures ListedAt(types, index, pos, m.nodeID) && i == pos[m.nodeID]
      ensures types[m.nodeID] == m.info.nodeType
    {
      ghost var t, p := types[m.nodeID], pos[m.nodeID];
      assert ListedAt(types, index, pos, m.nodeID) && Typed(m.nodeID) && Backs(t, p);
      var list := typeMap[m.info.nodeType];
      i := 0;
      while list[i].nodeID != m.nodeID
        invariant 0 <= i <= p
        decreases |list| - i
      {
        i := i + 1;
      }
      assert Backs(t, i) && Entry(types, index, pos, t, i);
    }

    method Append(t: Name, m: Member)
      requires Backed() && m.nodeID in members && members[m.nodeID] == m
      modifies `typeMap, `index
      ensures Backed() && index == old(index)[t := ListOf(old(index), t) + [m.nodeID]]
    {
      typeMap := typeMap[t := ListOf(typeMap, t) + [m]];
      index := index[t := ListOf(index, t) + [m.nodeID]];
      forall u, i | u in index && 0 <= i < |index[u]| ensures Backs(u, i) {
        assert (u in old(index) && i < |old(index)[u]|) ==> old(Backs(u, i));
      }
    }

    method CutOut(t: Name, i: nat)
      requires Backed() && t in index && i < |index[t]|
      modifies `typeMap, `index
      ensures Backed() && index == old(index)[t := Cut(old(index)[t], i)]
    {
      typeMap := typeMap[t := Cut(typeMap[t], i)];
      index := index[t := Cut(index[t], i)];
      forall u, k | u in index && 0 <= k < |index[u]| ensures Backs(u, k) {
        assert old(Backs(u, if u == t && k >= i then k + 1 else k));
      }
    }

    /** Takes a member out of the list of its type. */
    method Unlist(m: Member)
      requires Valid() && m.nodeID in members && members[m.nodeID] == m
      modifies `typeMap, `index, `pos, `types
      ensures Backed() && Agree(types, index, pos) && types == old(types) - {m.nodeID}
      ensures forall t, i :: t in index && 0 <= i < |index[t]| ==> index[t][i] != m.nodeID
    {
      var i := Find(m);
      AgreeWithout(types, index, pos, m.nodeID);
      CutOut(m.info.nodeType, i);
      pos := Shifted(types, pos, m.nodeID);
      types := types - {m.nodeID};
      forall t, i | t in index && 0 <= i < |index[t]| ensures index[t][i] != m.nodeID {
        assert Entry(types, index, pos, t, i);
      }
    }

    /** Lists a member under a type. */
    method List(t: Name, m: Member)
      requires Backed() && Agree(types, index, pos) && m.nodeID !in types
      requires m.nodeID in members && members[m.nodeID] == m
      modifies `typeMap, `index, `pos, `types
      ensures Backed() && Agree(types, index, pos) && types == old(types)[m.nodeID := t]
    {
      AgreeWith(types, index, pos, m.nodeID, t);
      pos := pos[m.nodeID := |ListOf(index, t)|];
      types := types[m.nodeID := t];
      Append(t, m);
    }

    /** Adds the member, or overwrites what is known about it. */
    method AddMember(info: MemberInfo) returns (isNew: bool)
      requires Valid()
      modifies this, repr
      ensures Valid() && isNew == (info.nodeID !in old(infos))
      ensures infos == old(infos)[info.nodeID := info]
      ensures fresh(repr - old(repr))
    {
      isNew := info.nodeID !in members;
      if isNew {
        AddNew(info);
      } else {
        assert Typed(info.nodeID);
        UpdateOld(info);
      }
    }

    method AddNew(info: MemberInfo)
      requires Valid() && info.nodeID !in members
      modifies this
      ensures Valid() && infos == old(infos)[info.nodeID := info]
      ensures fresh(repr - old(repr))
    {
      var m := new Member(info);
      Enter(m);
      List(info.nodeType, m);
      infos := infos[info.nodeID := info];
      repr := repr + {m};
      forall id | id in members ensures Typed(id) {
        assert id != info.nodeID ==> old(Typed(id));
      }
    }

    /** members[m.nodeID] = m, for a member not yet listed. */
    method Enter(m: Member)
      requires Backed() && m.nodeID !in members
      modifies `members
      ensures Backed() && members == old(members)[m.nodeID := m]
    {
      members := members[m.nodeID := m];
      forall t, i | t in index && 0 <= i < |index[t]| ensures Backs(t, i) {
        assert old(Backs(t, i));
      }
    }

    /** delete(members, id), for a member no longer listed. */
    method Leave(id: Name)
      requires Backed()
      requires forall t, i :: t in index && 0 <= i < |index[t]| ==> index[t][i] != id
      modifies `members
      ensures Backed() && members == old(members) - {id}
    {
      members := members - {id};
      forall t, i | t in index && 0 <= i < |index[t]| ensures Backs(t, i) {
        assert old(Backs(t, i));
      }
    }

    method UpdateOld(info: MemberInfo)
      requires Valid() && info.nodeID in members
      modifies `typeMap, `index, `pos, `types, `infos, members[info.nodeID]
      ensures Valid() && members == old(members)
      ensures infos == old(infos)[info.nodeID := info]
    {
      var m := members[info.nodeID];
      assert Typed(info.nodeID);
      if m.info.nodeType != info.nodeType {
        Unlist(m);
        List(info.nodeType, m);
      }
      m.info := info;
      infos := infos[info.nodeID := info];
      forall id | id in members ensures Typed(id) {
        assert old(Typed(id));
      }
    }

    method RemoveMember(nodeID: Name) returns (existed: bool)
      requires Valid()
      modifies this
      ensures Valid() && existed == (nodeID in old(infos))
      ensures infos == old(infos) - {nodeID} && repr == old(repr)
    {
      existed := nodeID in members;
      if existed {
        assert Typed(nodeID);
        Unlist(members[nodeID]);
        Leave(nodeID);
        infos := infos - {nodeID};
        forall id | id in members ensures Typed(id) {
          assert old(Typed(id));
        }
      }
    }

    /** The count of a type is the number of members of that type. */
    method CountOfType(t: Name) returns (n: nat)
      requires Valid()
      ensures n == |set id | id in infos && infos[id].nodeType == t|
    {
      CountIs(types, index, pos, t);
      n := |ListOf(typeMap, t)|;
      forall id | id in infos ensures infos[id].nodeType == types[id] {
        assert Typed(id);
      }
      assert (set id | id in infos && infos[id].nodeType == t) == set id | id in types && types[id] == t;
    }
  }

  /** What the NATS discovery keeps beside the members: when each was last heard of, and how many
      were ever added and removed. */
  class Discovery {
    const mgr: MemberMgr
    var memberTimes: map<Name, int>
    var membersAdded: nat
    var membersRemoved: nat

    constructor ()
      ensures Valid() && mgr.infos == map[] && memberTimes == map[] && fresh(mgr) && mgr.repr == {}
    {
      this.mgr := new MemberMgr();
      this.memberTimes, this.membersAdded, this.membersRemoved := map[], 0, 0;
    }

    ghost predicate Valid()
      reads this, mgr, mgr.repr
    {
      && mgr.Valid()
      && memberTimes.Keys == mgr.infos.Keys
      && membersAdded - membersRemoved == |mgr.infos|
    }

    method AddMemberInfo(info: Option<MemberInfo>, now: int)
      requires Valid()
      modifies this, mgr, mgr.repr
      ensures Valid() && fresh(mgr.repr - old(mgr.repr))
      ensures info.None? ==> mgr.infos == old(mgr.infos) && memberTimes == old(memberTimes)
      ensures info.Some? ==> mgr.infos == old(mgr.infos)[info.value.nodeID := info.value]
      ensures info.Some? ==> memberTimes == old(memberTimes)[info.value.nodeID := now]
      ensures membersRemoved == old(membersRemoved)
    {
      if info.Some? {
        AddSome(info.value, now);
      }
    }

    method AddSome(info: MemberInfo, now: int)
      requires Valid()
      modifies this, mgr, mgr.repr
      ensures Valid() && fresh(mgr.repr - old(mgr.repr))
      ensures mgr.infos == old(mgr.infos)[info.nodeID := info]
      ensures memberTimes == old(memberTimes)[info.nodeID := now]
      ensures membersRemoved == old(membersRemoved)
    {
      ghost var was := mgr.infos;
      var isNew := mgr.AddMember(info);
      Record(info, now, isNew, was);
    }

    /** The accounts after the manager has taken a member, new or not. */
    method Record(info: MemberInfo, now: int, isNew: bool, ghost was: map<Name, MemberInfo>)
      requires mgr.Valid() && mgr.infos == was[info.nodeID := info] && isNew == (info.nodeID !in was)
      requires memberTimes.Keys == was.Keys && membersAdded - membersRemoved == |was|
      modifies `memberTimes, `membersAdded
      ensures Valid() && memberTimes == old(memberTimes)[info.nodeID := now]
    {
      SizePlus(was, info.nodeID, info);
      memberTimes := memberTimes[info.nodeID := now];
      if isNew {
        membersAdded := membersAdded + 1;
      }
    }

    /** The member without a node id is never removed. */
    method RemoveMember(nodeID: Name)
      requires Valid()
      modifies this, mgr
      ensures Valid() && mgr.repr == old(mgr.repr)
      ensures mgr.infos == old(mgr.infos) - Removable(nodeID)
      ensures memberTimes == old(memberTimes) - Removable(nodeID)
      ensures membersAdded == old(membersAdded)
    {
      if nodeID == NO_NAME {
        MinusNothing(mgr.infos, {});
        MinusNothing(memberTimes, {});
        return;
      }
      RemoveNamed(nodeID);
    }

    method RemoveNamed(nodeID: Name)
      requires Valid()
      modifies this, mgr
      ensures Valid() && mgr.repr == old(mgr.repr)
      ensures mgr.infos == old(mgr.infos) - {nodeID}
      ensures memberTimes == old(memberTimes) - {nodeID}
      ensures membersAdded == old(membersAdded)
    {
      ghost var was, times := mgr.infos, memberTimes;
      var existed := mgr.RemoveMember(nodeID);
      if existed {
        Forget(nodeID, was);
      } else {
        MinusNothing(times, {nodeID});
        MinusNothing(was, {nodeID});
      }
    }

    /** The accounts after the manager has removed a member of those it had. */
    method Forget(nodeID: Name, ghost was: map<Name, MemberInfo>)
      requires mgr.Valid() && nodeID in was && mgr.infos == was - {nodeID}
      requires memberTimes.Keys == was.Keys && membersAdded - membersRemoved == |was|
      modifies `memberTimes, `membersRemoved
      ensures Valid() && memberTimes == old(memberTimes) - {nodeID}
    {
      SizeMinus(was, nodeID);
      memberTimes := memberTimes - {nodeID};
      membersRemoved := membersRemoved + 1;
    }

    /** One tick of checkMemberTimeout: exactly the members not heard of for longer than the timeout
        go, whatever their number, except one without a node id. */
    method CheckMemberTimeout(now: int, timeout: int)
      requires Valid()
      modifies this, mgr
      ensures Valid() && mgr.repr == old(mgr.repr)
      ensures forall id :: id in memberTimes <==>
        id in old(memberTimes) && (now - old(memberTimes)[id] <= timeout || id == NO_NAME)
      ensures forall id :: id in memberTimes ==>
        memberTimes[id] == old(memberTimes)[id] && mgr.infos[id] == old(mgr.infos)[id]
      ensures membersAdded == old(membersAdded)
    {
      var toRemove := set id | id in memberTimes && now - memberTimes[id] > timeout;
      ghost var stale := toRemove;
      MinusNothing(memberTimes, Gone(stale, stale));
      MinusNothing(mgr.infos, Gone(stale, stale));
      while toRemove != {}
        invariant Valid() && mgr.repr == old(mgr.repr) && toRemove <= stale
        invariant memberTimes == old(memberTimes) - Gone(stale, toRemove)
        invariant mgr.infos == old(mgr.infos) - Gone(stale, toRemove) && membersAdded == old(membersAdded)
        decreases |toRemove|
      {
        var id :| id in toRemove;
        RemoveMember(id);
        OneMoreGone(old(memberTimes), stale, toRemove, id);
        OneMoreGone(old(mgr.infos), stale, toRemove, id);
        toRemove := toRemove - {id};
      }
      Swept(old(memberTimes), stale);
    }
  }

  /** What a sweep of `stale` has removed while `rest` is still to do. */
  function Gone(stale: set<Name>, rest: set<Name>): set<Name> {
    stale - rest - {NO_NAME}
  }

  lemma Swept<T>(m: map<Name, T>, stale: set<Name>)
    ensures forall id :: id in m - Gone(stale, {}) <==> id in m && (id !in stale || id == NO_NAME)
  {
  }

  lemma OneMoreGone<T>(m: map<Name, T>, stale: set<Name>, rest: set<Name>, id: Name)
    requires id in rest && rest <= stale
    ensures m - Gone(stale, rest) - Removable(id) == m - Gone(stale, rest - {id})
  {
    assert Gone(stale, rest - {id}) == Gone(stale, rest) + Removable(id);
  }

  /** What a call of removeMember may remove. */
  function Removable(nodeID: Name): set<Name> {
    if nodeID == NO_NAME then {} else {nodeID}
  }

  lemma MinusNothing<T>(m: map<Name, T>, gone: set<Name>)
    requires gone !! m.Keys
    ensures m - gone == m
  {
  }

  lemma SizeMinus<T>(m: map<Name, T>, id: Name)
    requires id in m
    ensures |m - {id}| == |m| - 1
  {
    assert (m - {id}).Keys == m.Keys - {id};
    SizeOfKeys(m);
    SizeOfKeys(m - {id});
  }

  lemma SizePlus<T>(m: map<Name, T>, id: Name, x: T)
    ensures |m[id := x]| == |m| + if id in m then 0 else 1
  {
    SizeOfKeys(m);
    SizeOfKeys(m[id := x]);
    assert m[id := x].Keys == m.Keys + {id};
    if id in m {
      assert m.Keys + {id} == m.Keys;
    }
  }

  lemma SizeOfKeys<T>(m: map<Name, T>)
    ensures |m| == |m.Keys|
  {
  }
}
