/**
 Table entries and match keys between the RPC client (targets/rpc/pi_tables_imp.c) and the
 RPC server (src/pi_rpc_server.c): sizes predicted, bytes emitted, and what the server's
 handler reads out of them.
 */
module RpcCodec {
  import opened Basics
  import opened Wire
  import opened Arena
  import opened DirectRes
  import opened DirectResRpc

  datatype Action =
    | NoAction
    | Data(actionId: u32, data: seq<byte>)
    | Indirect(handle: u64)

  /** Properties of an entry are never sent and are not part of it here. No list is []. */
  datatype Entry = Entry(action: Action, configs: seq<One>)

  datatype MatchKey = MatchKey(priority: u32, data: seq<byte>)

  /** The fixed fields every table request starts with; the pipe mask has 16 bits and travels in 32. */
  datatype Header = Header(reqId: u32, session: u32, devId: u64, pipeMask: u16, tableId: u32)

  datatype AddRequest = AddRequest(header: Header, key: MatchKey, entry: Entry, overwrite: u32)

  /** PI_RPC_TABLE_ENTRY_ADD. */
  const TABLE_ENTRY_ADD: u32 := 10

  /** Data sizes travel as 32-bit words. */
  predicate SendableEntry(reg: Registry, e: Entry) {
    (e.action.Data? ==> |e.action.data| < 0x1_0000_0000) && Sendable(reg, e.configs)
  }

  predicate SendableAdd(reg: Registry, r: AddRequest) {
    |r.key.data| < 0x1_0000_0000 && SendableEntry(reg, r.entry)
  }

  // ----------------------------------------------------------------- format

  /** A length word and that many bytes. */
  function EncBlob(h: Host, data: seq<byte>): seq<byte>
    requires |data| < 0x1_0000_0000
  {
    EncU32(h, |data|) + data
  }

  function EncAction(h: Host, a: Action): seq<byte>
    requires a.Data? ==> |a.data| < 0x1_0000_0000
  {
    match a
    case NoAction => EncU32(h, 0)
    case Data(id, data) => EncU32(h, 1) + (EncU32(h, id) + EncBlob(h, data))
    case Indirect(handle) => EncU32(h, 2) + EncU64(h, handle)
  }

  function EncEntry(reg: Registry, e: Entry): seq<byte>
    requires SendableEntry(reg, e)
  {
    EncAction(reg.host, e.action) + EncConfigs(reg, e.configs)
  }

  function EncKey(h: Host, k: MatchKey): seq<byte>
    requires |k.data| < 0x1_0000_0000
  {
    EncU32(h, k.priority) + EncBlob(h, k.data)
  }

  /** Request id, type, session, device and table. */
  function EncHeader(h: Host, x: Header): (s: seq<byte>)
    ensures |s| == 28
  {
    EncU32(h, x.reqId) + (EncU32(h, TABLE_ENTRY_ADD) + (EncU32(h, x.session) +
      (EncU64(h, x.devId) + (EncU32(h, x.pipeMask) + EncU32(h, x.tableId)))))
  }

  function EncAdd(reg: Registry, r: AddRequest): seq<byte>
    requires SendableAdd(reg, r)
  {
    EncHeader(reg.host, r.header) + (EncKey(reg.host, r.key) + (EncEntry(reg, r.entry) + EncU32(reg.host, r.overwrite)))
  }

  /** Where the fixed fields of an add request are; its type is 10. */
  lemma HeaderLayout(h: Host, x: Header)
    ensures var s := EncHeader(h, x);
      && s[..4] == EncU32(h, x.reqId) && s[4..8] == EncU32(h, 10) && s[8..12] == EncU32(h, x.session)
      && s[12..20] == EncU64(h, x.devId) && s[20..24] == EncU32(h, x.pipeMask) && s[24..28] == EncU32(h, x.tableId)
  {
    SixInOrder(EncU32(h, x.reqId), EncU32(h, 10), EncU32(h, x.session), EncU64(h, x.devId), EncU32(h, x.pipeMask), EncU32(h, x.tableId), EncHeader(h, x));
  }

  lemma SixInOrder(a: seq<byte>, b: seq<byte>, c: seq<byte>, d: seq<byte>, e: seq<byte>, f: seq<byte>, s: seq<byte>)
    requires |a| == 4 && |b| == 4 && |c| == 4 && |d| == 8 && |e| == 4 && |f| == 4 && s == a + (b + (c + (d + (e + f))))
    ensures s[..4] == a && s[4..8] == b && s[8..12] == c && s[12..20] == d && s[20..24] == e && s[24..28] == f
  {
  }

  /** And the rest of the request: priority, key, entry and the overwrite flag, each where the one before ends. */
  lemma AddLayout(reg: Registry, r: AddRequest)
    requires SendableAdd(reg, r)
    ensures var s, n, m := EncAdd(reg, r), |r.key.data|, |EncEntry(reg, r.entry)|;
      && |s| == 40 + n + m && s[..28] == EncHeader(reg.host, r.header) && s[28..32] == EncU32(reg.host, r.key.priority)
      && s[32..36] == EncU32(reg.host, n) && s[36..36 + n] == r.key.data
      && s[36 + n..36 + n + m] == EncEntry(reg, r.entry) && s[36 + n + m..] == EncU32(reg.host, r.overwrite)
  {
    SixPieces(EncHeader(reg.host, r.header), EncU32(reg.host, r.key.priority), EncU32(reg.host, |r.key.data|), r.key.data,
              EncEntry(reg, r.entry), EncU32(reg.host, r.overwrite), EncAdd(reg, r));
  }

  lemma SixPieces(a: seq<byte>, b: seq<byte>, c: seq<byte>, d: seq<byte>, e: seq<byte>, f: seq<byte>, s: seq<byte>)
    requires |a| == 28 && |b| == 4 && |c| == 4 && |f| == 4 && s == a + ((b + (c + d)) + (e + f))
    ensures var n, m := |d|, |e|;
      && |s| == 40 + n + m && s[..28] == a && s[28..32] == b && s[32..36] == c && s[36..36 + n] == d
      && s[36 + n..36 + n + m] == e && s[36 + n + m..] == f
  {
  }

  /** An entry: its kind, what that takes, and the direct resources. */
  lemma EntryLayout(reg: Registry, e: Entry)
    requires SendableEntry(reg, e)
    ensures var s, h := EncEntry(reg, e), reg.host;
      match e.action
      case NoAction => s[..4] == EncU32(h, 0) && s[4..] == EncConfigs(reg, e.configs)
      case Data(id, data) =>
        && s[..4] == EncU32(h, 1) && s[4..8] == EncU32(h, id) && s[8..12] == EncU32(h, |data|)
        && s[12..12 + |data|] == data && s[12 + |data|..] == EncConfigs(reg, e.configs)
      case Indirect(handle) => s[..4] == EncU32(h, 2) && s[4..12] == EncU64(h, handle) && s[12..] == EncConfigs(reg, e.configs)
  {
    var h := reg.host;
    match e.action
    case NoAction =>
    case Data(id, data) => FivePieces(EncU32(h, 1), EncU32(h, id), EncU32(h, |data|), data, EncConfigs(reg, e.configs), EncEntry(reg, e));
    case Indirect(handle) =>
  }

  lemma FivePieces(a: seq<byte>, b: seq<byte>, c: seq<byte>, d: seq<byte>, e: seq<byte>, s: seq<byte>)
    requires |a| == 4 && |b| == 4 && |c| == 4 && s == (a + (b + (c + d))) + e
    ensures |s| >= 12 + |d| && s[..4] == a && s[4..8] == b && s[8..12] == c && s[12..12 + |d|] == d && s[12 + |d|..] == e
  {
  }

  // ---------------------------------------------------------------- sending

  /** table_entry_size predicts what emit_table_entry writes. */
  method TableEntrySize(reg: Registry, e: Entry) returns (s: nat)
    requires SendableEntry(reg, e)
    ensures s == |EncEntry(reg, e)|
  {
    s := 4;
    match e.action {
      case NoAction =>
      case Data(_, data) => s := s + (4 + 4 + |data|);
      case Indirect(_) => s := s + 8;
    }
    var n := DirectResConfigSize(reg, e.configs);
    s := s + n;
    SizeIsExact(reg, e.configs);
  }

  method EmitActionData(h: Host, dst: array<byte>, off: nat, id: u32, data: seq<byte>) returns (s: nat)
    requires |data| < 0x1_0000_0000 && off + 8 + |data| <= dst.Length
    modifies dst
    ensures s == 8 + |data|
    ensures dst[..off + s] == old(dst[..off]) + (EncU32(h, id) + EncBlob(h, data))
    ensures dst[off + s..] == old(dst[off + s..])
  {
    ghost var before, later := dst[..off], dst[off + 4..];
    Put(dst, off, EncU32(h, id));
    Put(dst, off + 4, EncU32(h, |data|));
    s := 8;
    Join(before, EncU32(h, id), EncU32(h, |data|), data);
    assert dst[off + s..] == later[4..];
    assert dst[off + s + |data|..] == later[4..][|data|..];
    if |data| > 0 {
      Put(dst, off + s, data);
      s := s + |data|;
    }
  }

  lemma Join(a: seq<byte>, b: seq<byte>, c: seq<byte>, d: seq<byte>)
    ensures a + b + c + d == a + (b + (c + d))
  {
  }

  /** The action part of emit_table_entry. */
  method EmitAction(h: Host, dst: array<byte>, off: nat, a: Action) returns (s: nat)
    requires (a.Data? ==> |a.data| < 0x1_0000_0000) && off + |EncAction(h, a)| <= dst.Length
    modifies dst
    ensures s == |EncAction(h, a)|
    ensures dst[..off + s] == old(dst[..off]) + EncAction(h, a)
    ensures dst[off + s..] == old(dst[off + s..])
  {
    ghost var before, after := dst[..off], dst[off + |EncAction(h, a)|..];
    var tag := EncU32(h, if a.NoAction? then 0 else if a.Data? then 1 else 2);
    Put(dst, off, tag);
    s := 4;
    assert dst[off + |EncAction(h, a)|..] == after;
    match a {
      case NoAction =>
      case Data(id, data) =>
        var n := EmitActionData(h, dst, off + s, id, data);
        s := s + n;
        Regroup(before, tag, EncU32(h, id) + EncBlob(h, data));
      case Indirect(handle) =>
        Put(dst, off + s, EncU64(h, handle));
        s := s + 8;
        Regroup(before, tag, EncU64(h, handle));
    }
  }

  method EmitTableEntry(reg: Registry, dst: array<byte>, off: nat, e: Entry) returns (s: nat)
    requires SendableEntry(reg, e) && off + |EncEntry(reg, e)| <= dst.Length
    modifies dst
    ensures s == |EncEntry(reg, e)|
    ensures dst[..off + s] == old(dst[..off]) + EncEntry(reg, e)
    ensures dst[off + s..] == old(dst[off + s..])
  {
    ghost var before, after := dst[..off], dst[off + |EncEntry(reg, e)|..];
    SizeIsExact(reg, e.configs);
    s := EmitAction(reg.host, dst, off, e.action);
    assert dst[off + |EncEntry(reg, e)|..] == after;
    var n := EmitDirectResConfig(reg, dst, off + s, e.configs);
    s := s + n;
    Regroup(before, EncAction(reg.host, e.action), EncConfigs(reg, e.configs));
  }

  method EmitMatchKey(h: Host, dst: array<byte>, off: nat, k: MatchKey) returns (s: nat)
    requires |k.data| < 0x1_0000_0000 && off + |EncKey(h, k)| <= dst.Length
    modifies dst
    ensures s == |EncKey(h, k)|
    ensures dst[..off + s] == old(dst[..off]) + EncKey(h, k)
    ensures dst[off + s..] == old(dst[off + s..])
  {
    s := EmitActionData(h, dst, off, k.priority, k.data);
  }

  /** emit_req_hdr and the fixed fields after it. */
  method EmitHeader(h: Host, dst: array<byte>, x: Header) returns (s: nat)
    requires dst.Length >= 28
    modifies dst
    ensures s == 28 && dst[..28] == EncHeader(h, x)
  {
    Put(dst, 0, EncU32(h, x.reqId));
    Put(dst, 4, EncU32(h, TABLE_ENTRY_ADD));
    Put(dst, 8, EncU32(h, x.session));
    Put(dst, 12, EncU64(h, x.devId));
    Put(dst, 20, EncU32(h, x.pipeMask));
    Put(dst, 24, EncU32(h, x.tableId));
    s := 28;
    SixParts(EncU32(h, x.reqId), EncU32(h, TABLE_ENTRY_ADD), EncU32(h, x.session), EncU64(h, x.devId),
             EncU32(h, x.pipeMask), EncU32(h, x.tableId), dst[..0]);
  }

  lemma SixParts(a: seq<byte>, b: seq<byte>, c: seq<byte>, d: seq<byte>, e: seq<byte>, f: seq<byte>, none: seq<byte>)
    requires none == []
    ensures none + a + b + c + d + e + f == a + (b + (c + (d + (e + f))))
  {
  }

  /** The client builds an add request in a buffer of the predicted size, and fills it exactly. */
  method BuildAdd(reg: Registry, r: AddRequest) returns (req: array<byte>)
    requires SendableAdd(reg, r)
    ensures fresh(req) && req[..] == EncAdd(reg, r)
  {
    var entrySize := TableEntrySize(reg, r.entry);
    var s := (4 + 4) + 4 + (8 + 4) + 4 + (4 + (4 + |r.key.data|)) + entrySize + 4;
    req := new byte[s];
    var at: nat := EmitHeader(reg.host, req, r.header);
    var n := EmitMatchKey(reg.host, req, at, r.key);
    at := at + n;
    n := EmitTableEntry(reg, req, at, r.entry);
    at := at + n;
    Put(req, at, EncU32(reg.host, r.overwrite));
    at := at + 4;
    assert at == s;
    Join(EncHeader(reg.host, r.header), EncKey(reg.host, r.key), EncEntry(reg, r.entry), EncU32(reg.host, r.overwrite));
    assert req[..at] == req[..];
  }

  // -------------------------------------------------------------- receiving

  /** A length word and that many bytes, if they are there. */
  function ReadBlob(h: Host, s: seq<byte>): Read<seq<byte>> {
    if |s| < 4 || |s| < 4 + DecU32(h, s) then None
    else Some((s[4..4 + DecU32(h, s)], 4 + DecU32(h, s)))
  }

  /** A word, then a blob: match keys and action data alike. */
  function ReadTagged(h: Host, s: seq<byte>): Read<(u32, seq<byte>)> {
    if |s| < 4 then None
    else
      match ReadBlob(h, s[4..])
      case None => None
      case Some((data, len)) => Some(((DecU32(h, s), data), 4 + len))
  }

  /** retrieve_table_entry; None for an entry type it asserts on, or off the end of the message. */
  function ReadAction(h: Host, s: seq<byte>): Read<Action> {
    if |s| < 4 then None
    else if DecU32(h, s) == 0 then Some((NoAction, 4))
    else if DecU32(h, s) == 1 then
      match ReadTagged(h, s[4..])
      case None => None
      case Some(((id, data), len)) => Some((Data(id, data), 4 + len))
    else if DecU32(h, s) == 2 && |s| >= 12 then Some((Indirect(DecU64(h, s[4..])), 12))
    else None
  }

  lemma TaggedBack(h: Host, v: u32, data: seq<byte>, rest: seq<byte>)
    requires |data| < 0x1_0000_0000
    ensures ReadTagged(h, (EncU32(h, v) + EncBlob(h, data)) + rest) == Some(((v, data), 8 + |data|))
  {
    var blob := EncU32(h, |data|) + (data + rest);
    assert (EncU32(h, v) + EncBlob(h, data)) + rest == EncU32(h, v) + blob;
    U32Back(h, v, blob);
    U32Back(h, |data|, data + rest);
    assert blob[4..4 + |data|] == (data + rest)[..|data|] == data;
  }

  /** Retrieving undoes emitting, for each kind of entry, and takes exactly what was emitted. */
  lemma ActionBack(h: Host, a: Action, rest: seq<byte>)
    requires a.Data? ==> |a.data| < 0x1_0000_0000
    ensures ReadAction(h, EncAction(h, a) + rest) == Some((a, |EncAction(h, a)|))
  {
    match a {
      case NoAction => U32Back(h, 0, rest);
      case Data(id, data) =>
        var body := EncU32(h, id) + EncBlob(h, data);
        Regroup(EncU32(h, 1), body, rest);
        U32Back(h, 1, body + rest);
        TaggedBack(h, id, data, rest);
      case Indirect(handle) =>
        Regroup(EncU32(h, 2), EncU64(h, handle), rest);
        U32Back(h, 2, EncU64(h, handle) + rest);
        U64Back(h, handle, rest);
    }
  }

  /** An entry is refused exactly if its kind is none of the three or the message ends within it. */
  lemma ActionRefusedIff(h: Host, s: seq<byte>)
    ensures ReadAction(h, s).None? <==>
      || |s| < 4 || DecU32(h, s) > 2
      || (DecU32(h, s) == 1 && (|s| < 12 || |s| < 12 + DecU32(h, s[8..])))
      || (DecU32(h, s) == 2 && |s| < 12)
  {
    if |s| >= 12 { assert s[4..][4..] == s[8..]; }
  }

  /** The dispatcher's and the handler's reading of the fixed fields; None for another type of request. */
  function ReadHeader(h: Host, s: seq<byte>): Read<Header> {
    if |s| < 28 || DecU32(h, s[4..]) != TABLE_ENTRY_ADD then None
    else Some((Header(DecU32(h, s), DecU32(h, s[8..]), DecU64(h, s[12..]), DecU32(h, s[20..]) % 0x1_0000, DecU32(h, s[24..])), 28))
  }

  /** Only requests of type 10 get to the add handler. */
  lemma HeaderRefusedIff(h: Host, s: seq<byte>)
    ensures ReadHeader(h, s).None? <==> |s| < 28 || DecU32(h, s[4..]) != 10
  {
  }

  lemma HeaderBack(h: Host, x: Header, rest: seq<byte>)
    ensures ReadHeader(h, EncHeader(h, x) + rest) == Some((x, 28))
  {
    var s5 := EncU32(h, x.tableId) + rest;
    var s4 := EncU32(h, x.pipeMask) + s5;
    var s3 := EncU64(h, x.devId) + s4;
    var s2 := EncU32(h, x.session) + s3;
    var s1 := EncU32(h, TABLE_ENTRY_ADD) + s2;
    var s := EncU32(h, x.reqId) + s1;
    HeaderSplit(h, x, rest);
    U32Back(h, x.reqId, s1);
    U32Back(h, TABLE_ENTRY_ADD, s2);
    U32Back(h, x.session, s3);
    U64Back(h, x.devId, s4);
    U32Back(h, x.pipeMask, s5);
    U32Back(h, x.tableId, rest);
    assert s[8..] == s[4..][4..] && s[12..] == s[8..][4..] && s[20..] == s[12..][8..] && s[24..] == s[20..][4..];
  }

  lemma HeaderSplit(h: Host, x: Header, rest: seq<byte>)
    ensures EncHeader(h, x) + rest ==
      EncU32(h, x.reqId) + (EncU32(h, TABLE_ENTRY_ADD) + (EncU32(h, x.session) +
        (EncU64(h, x.devId) + (EncU32(h, x.pipeMask) + (EncU32(h, x.tableId) + rest)))))
  {
  }

  lemma Advance(a: seq<byte>, rest: seq<byte>)
    ensures (a + rest)[|a|..] == rest
  {
  }

  /**
   The server's add handler on a request the client built: every field comes back, the cursor
   stops right behind the last of them, and the memory for the direct resources is laid out
   inside its one allocation.
   */
  method HandleAdd(reg: Registry, z: Sizes, req: seq<byte>, ghost sent: AddRequest, ghost rest: seq<byte>)
    returns (r: AddRequest, left: seq<byte>, block: Option<Block>, placed: seq<Region>)
    requires SendableAdd(reg, sent) && req == EncAdd(reg, sent) + rest
    ensures r == sent && left == rest
    ensures block.None? <==> sent.entry.configs == []
    ensures block.Some? ==>
      && |placed| == |sent.entry.configs|
      && (forall i :: 0 <= i < |placed| ==>
            var t := TypeOf(sent.entry.configs[i].resId); t in reg.types && placed[i].size == reg.types[t].sizeOf)
      && LaidOut(Front(z.header, Times(|placed|, z.one)) + placed, 0, block.value.required)
  {
    ghost var h, e, last := reg.host, sent.entry, EncU32(reg.host, sent.overwrite) + rest;
    ghost var afterKey := EncAction(h, e.action) + (EncConfigs(reg, e.configs) + last);
    SplitAdd(reg, sent, rest);

    HeaderBack(h, sent.header, EncKey(h, sent.key) + afterKey);
    Advance(EncHeader(h, sent.header), EncKey(h, sent.key) + afterKey);
    var header := ReadHeader(reg.host, req).value;
    left := req[header.1..];

    TaggedBack(h, sent.key.priority, sent.key.data, afterKey);
    Advance(EncKey(h, sent.key), afterKey);
    var key := ReadTagged(reg.host, left).value;
    left := left[key.1..];

    ActionBack(h, e.action, EncConfigs(reg, e.configs) + last);
    Advance(EncAction(h, e.action), EncConfigs(reg, e.configs) + last);
    var action := ReadAction(reg.host, left).value;
    left := left[action.1..];

    var s, configs;
    s, block, configs, placed := Receive(reg, z, left, e.configs, last);
    left := left[s..];

    U32Back(h, sent.overwrite, rest);
    r := AddRequest(header.0, MatchKey(key.0.0, key.0.1), Entry(action.0, configs), DecU32(reg.host, left));
    left := left[4..];
  }

  lemma SplitAdd(reg: Registry, r: AddRequest, rest: seq<byte>)
    requires SendableAdd(reg, r)
    ensures EncAdd(reg, r) + rest ==
      EncHeader(reg.host, r.header) + (EncKey(reg.host, r.key) + (EncAction(reg.host, r.entry.action)
        + (EncConfigs(reg, r.entry.configs) + (EncU32(reg.host, r.overwrite) + rest))))
  {
  }
}
