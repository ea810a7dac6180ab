/**
 Iterating over a fetched action profile (src/pi_act_prof.c): one cursor over the members,
 another over the groups; the handles of all groups sit in one shared array.
 */
module ActProfFetch {
  import opened Basics
  import opened Wire

  datatype ActionData = ActionData(actionId: u32, data: seq<byte>)

  datatype Member = Member(handle: u64, action: ActionData)

  datatype Group = Group(handle: u64, mbrs: seq<u64>)

  // ----------------------------------------------------------------- format

  predicate MemberOk(m: Member) {
    |m.action.data| < 0x1_0000_0000
  }

  predicate AllMembersOk(ms: seq<Member>) {
    ms == [] || (MemberOk(ms[0]) && AllMembersOk(ms[1..]))
  }

  function EncMember(h: Host, m: Member): seq<byte>
    requires MemberOk(m)
  {
    EncU64(h, m.handle) + (EncU32(h, m.action.actionId) + (EncU32(h, |m.action.data|) + m.action.data))
  }

  /** A member: handle, action id, length, data. */
  lemma MemberLayout(h: Host, m: Member)
    requires MemberOk(m)
    ensures var s := EncMember(h, m);
      && |s| == 16 + |m.action.data| && s[..8] == EncU64(h, m.handle) && s[8..12] == EncU32(h, m.action.actionId)
      && s[12..16] == EncU32(h, |m.action.data|) && s[16..] == m.action.data
  {
  }

  function EncMembers(h: Host, ms: seq<Member>): seq<byte>
    requires AllMembersOk(ms)
  {
    if ms == [] then [] else EncMember(h, ms[0]) + EncMembers(h, ms[1..])
  }

  /** A group and where in the shared array its handles were put. */
  datatype Stored = Stored(group: Group, offset: u32)

  predicate StoredOk(handles: seq<u64>, g: Stored) {
    && |g.group.mbrs| < 0x1_0000_0000 && g.offset + |g.group.mbrs| <= |handles|
    && handles[g.offset..g.offset + |g.group.mbrs|] == g.group.mbrs
  }

  predicate AllStoredOk(handles: seq<u64>, gs: seq<Stored>) {
    gs == [] || (StoredOk(handles, gs[0]) && AllStoredOk(handles, gs[1..]))
  }

  function EncGroup(h: Host, g: Stored): seq<byte>
    requires |g.group.mbrs| < 0x1_0000_0000
  {
    EncU64(h, g.group.handle) + (EncU32(h, |g.group.mbrs|) + EncU32(h, g.offset))
  }

  /** A group: handle, number of members, where their handles start. */
  lemma GroupLayout(h: Host, g: Stored)
    requires |g.group.mbrs| < 0x1_0000_0000
    ensures var s := EncGroup(h, g);
      |s| == 16 && s[..8] == EncU64(h, g.group.handle) && s[8..12] == EncU32(h, |g.group.mbrs|) && s[12..] == EncU32(h, g.offset)
  {
  }

  function EncGroups(h: Host, handles: seq<u64>, gs: seq<Stored>): seq<byte>
    requires AllStoredOk(handles, gs)
  {
    if gs == [] then [] else EncGroup(h, gs[0]) + EncGroups(h, handles, gs[1..])
  }

  function GroupsOf(gs: seq<Stored>): (r: seq<Group>)
    ensures |r| == |gs|
  {
    if gs == [] then [] else [gs[0].group] + GroupsOf(gs[1..])
  }

  function ActionsOf(ms: seq<Member>): (r: seq<ActionData>)
    ensures |r| == |ms|
  {
    if ms == [] then [] else [ms[0].action] + ActionsOf(ms[1..])
  }

  // ---------------------------------------------------------------- reading

  method ReadMember(h: Host, s: seq<byte>, ghost m: Member, ghost rest: seq<byte>) returns (r: Member, len: nat)
    requires MemberOk(m) && s == EncMember(h, m) + rest
    ensures r == m && len == |EncMember(h, m)|
  {
    MemberSplit(h, m, rest);
    var handle := DecU64(h, s);
    len := 8;
    var actionId := DecU32(h, s[len..]);
    len := len + 4;
    var nbytes := DecU32(h, s[len..]);
    len := len + 4;
    r := Member(handle, ActionData(actionId, s[len..][..nbytes]));
    len := len + nbytes;
  }

  lemma MemberSplit(h: Host, m: Member, rest: seq<byte>)
    requires MemberOk(m)
    ensures var s, n := EncMember(h, m) + rest, |m.action.data|;
      && |s| >= 16 + n && DecU64(h, s) == m.handle && DecU32(h, s[8..]) == m.action.actionId
      && DecU32(h, s[12..]) == n && s[16..][..n] == m.action.data
  {
    var data := m.action.data;
    var s2 := EncU32(h, |data|) + (data + rest);
    var s1 := EncU32(h, m.action.actionId) + s2;
    var s := EncU64(h, m.handle) + s1;
    assert EncMember(h, m) + rest == s;
    U64Back(h, m.handle, s1);
    U32Back(h, m.action.actionId, s2);
    U32Back(h, |data|, data + rest);
    assert s[12..] == s1[4..] && s[16..] == s2[4..];
  }

  method ReadGroup(h: Host, handles: seq<u64>, s: seq<byte>, ghost g: Stored, ghost rest: seq<byte>)
    returns (r: Group, len: nat)
    requires StoredOk(handles, g) && s == EncGroup(h, g) + rest
    ensures r == g.group && len == |EncGroup(h, g)|
  {
    GroupSplit(h, g, rest);
    var handle := DecU64(h, s);
    len := 8;
    var num := DecU32(h, s[len..]);
    len := len + 4;
    var offset := DecU32(h, s[len..]);
    len := len + 4;
    r := Group(handle, handles[offset..][..num]);
  }

  lemma GroupSplit(h: Host, g: Stored, rest: seq<byte>)
    requires |g.group.mbrs| < 0x1_0000_0000
    ensures var s := EncGroup(h, g) + rest;
      && |s| >= 16 && DecU64(h, s) == g.group.handle
      && DecU32(h, s[8..]) == |g.group.mbrs| && DecU32(h, s[12..]) == g.offset
  {
    var s2 := EncU32(h, g.offset) + rest;
    var s1 := EncU32(h, |g.group.mbrs|) + s2;
    var s := EncU64(h, g.group.handle) + s1;
    assert EncGroup(h, g) + rest == s;
    U64Back(h, g.group.handle, s1);
    U32Back(h, |g.group.mbrs|, s2);
    U32Back(h, g.offset, rest);
    assert s[12..] == s1[4..];
  }

  lemma Step(src: seq<byte>, p: nat, e: seq<byte>, later: seq<byte>)
    requires p <= |src| && src[p..] == e + later
    ensures p + |e| <= |src| && src[p + |e|..] == later
  {
    assert src[p + |e|..] == src[p..][|e|..];
  }

  // --------------------------------------------------------------- iterators

  class FetchRes {
    const host: Host
    const numMembers: nat
    const numGroups: nat
    const entriesMembers: seq<byte>
    const entriesGroups: seq<byte>
    const mbrHandles: seq<u64>
    const actionDatas: array<ActionData>
    var idxMembers: nat
    var currMembers: nat
    var idxGroups: nat
    var currGroups: nat

    constructor (host: Host, numMembers: nat, numGroups: nat, entriesMembers: seq<byte>, entriesGroups: seq<byte>, mbrHandles: seq<u64>)
      ensures this.host == host && this.numMembers == numMembers && this.numGroups == numGroups
      ensures this.entriesMembers == entriesMembers && this.entriesGroups == entriesGroups && this.mbrHandles == mbrHandles
      ensures idxMembers == 0 && currMembers == 0 && idxGroups == 0 && currGroups == 0
      ensures fresh(actionDatas) && actionDatas.Length == numMembers
    {
      this.host, this.numMembers, this.numGroups := host, numMembers, numGroups;
      this.entriesMembers, this.entriesGroups, this.mbrHandles := entriesMembers, entriesGroups, mbrHandles;
      idxMembers, currMembers, idxGroups, currGroups := 0, 0, 0, 0;
      actionDatas := new ActionData[numMembers](_ => ActionData(0, []));
    }

    /** The members `done` have been handed out and their data is in place; `todo` are to come. */
    ghost predicate Members(done: seq<Member>, todo: seq<Member>)
      reads this, actionDatas
    {
      && AllMembersOk(todo) && idxMembers == |done| && |done| + |todo| == numMembers == actionDatas.Length
      && actionDatas[..idxMembers] == ActionsOf(done)
      && currMembers <= |entriesMembers| && entriesMembers[currMembers..] == EncMembers(host, todo)
    }

    ghost predicate Groups(todo: seq<Stored>)
      reads this
    {
      && AllStoredOk(mbrHandles, todo) && idxGroups + |todo| == numGroups
      && currGroups <= |entriesGroups| && entriesGroups[currGroups..] == EncGroups(host, mbrHandles, todo)
    }

    /** The next member; data handed out before stays in place, and so does the walk over groups. */
    method NextMember(ghost done: seq<Member>, ghost todo: seq<Member>) returns (i: nat, m: Option<Member>)
      requires Members(done, todo)
      modifies this`idxMembers, this`currMembers, actionDatas
      ensures i == old(idxMembers)
      ensures todo == [] ==> i == numMembers && m.None? && unchanged(this) && unchanged(actionDatas)
      ensures todo != [] ==> m == Some(todo[0]) && Members(done + [todo[0]], todo[1..])
    {
      i := idxMembers;
      if idxMembers == numMembers {
        return i, None;
      }
      ghost var later := EncMembers(host, todo[1..]);
      Step(entriesMembers, currMembers, EncMember(host, todo[0]), later);
      var r, len := ReadMember(host, entriesMembers[currMembers..], todo[0], later);
      actionDatas[idxMembers] := r.action;
      currMembers := currMembers + len;
      idxMembers := idxMembers + 1;
      m := Some(r);
      ActionsSnoc(done, r);
    }

    method NextGroup(ghost todo: seq<Stored>) returns (i: nat, g: Option<Group>)
      requires Groups(todo)
      modifies this`idxGroups, this`currGroups
      ensures i == old(idxGroups)
      ensures todo == [] ==> i == numGroups && g.None? && unchanged(this)
      ensures todo != [] ==> g == Some(todo[0].group) && Groups(todo[1..]) && idxGroups == i + 1
    {
      i := idxGroups;
      if idxGroups == numGroups {
        return i, None;
      }
      ghost var later := EncGroups(host, mbrHandles, todo[1..]);
      Step(entriesGroups, currGroups, EncGroup(host, todo[0]), later);
      var r, len := ReadGroup(host, mbrHandles, entriesGroups[currGroups..], todo[0], later);
      currGroups := currGroups + len;
      idxGroups := idxGroups + 1;
      g := Some(r);
    }
  }

  lemma {:induction false} ActionsSnoc(ms: seq<Member>, m: Member)
    ensures ActionsOf(ms + [m]) == ActionsOf(ms) + [m.action]
    decreases |ms|
  {
    if ms != [] {
      assert (ms + [m])[1..] == ms[1..] + [m];
      ActionsSnoc(ms[1..], m);
    }
  }

  /**
   A caller taking members and groups off their blobs, in any interleaving: gets each kind in
   order and complete, with every cursor at its end and all members' data in place.
   */
  method TakeAll(res: FetchRes, plan: seq<bool>, ghost ms: seq<Member>, ghost gs: seq<Stored>)
    returns (members: seq<Member>, groups: seq<Group>)
    requires res.Members([], ms) && res.Groups(gs)
    modifies res, res.actionDatas
    ensures res.Members(ms, []) && res.Groups([])
    ensures members == ms && groups == GroupsOf(gs)
    ensures res.currMembers == |res.entriesMembers| && res.currGroups == |res.entriesGroups|
  {
    members, groups := [], [];
    var wanted := plan;
    ghost var mtodo, gtodo := ms, gs;
    while res.idxMembers < res.numMembers || res.idxGroups < res.numGroups
      invariant res.Members(members, mtodo) && members + mtodo == ms
      invariant res.Groups(gtodo) && groups + GroupsOf(gtodo) == GroupsOf(gs)
      decreases |mtodo| + |gtodo|
    {
      // The plan says which iterator is asked first; an exhausted one leaves the other its turn.
      var first := if wanted == [] then true else wanted[0];
      wanted := if wanted == [] then [] else wanted[1..];
      if (first && res.idxMembers < res.numMembers) || res.idxGroups == res.numGroups {
        NextOver(members, mtodo);
        var i, m := res.NextMember(members, mtodo);
        members := members + [m.value];
        mtodo := mtodo[1..];
      } else {
        NextGroupOver(groups, gtodo);
        var i, g := res.NextGroup(gtodo);
        groups := groups + [g.value];
        gtodo := gtodo[1..];
      }
    }
    assert mtodo == [] && gtodo == [] && members + [] == members && groups + [] == groups;
  }

  lemma NextGroupOver(done: seq<Group>, todo: seq<Stored>)
    requires todo != []
    ensures done + GroupsOf(todo) == (done + [todo[0].group]) + GroupsOf(todo[1..])
  {
  }
}
