/**
 Iterating over fetched table entries (pi_table_entries_next of src/pi_tables.c): a blob of
 variable-length entries is decoded with a cursor, entry by entry, and the structures handed
 out for an entry are carved out of its share of one block.
 */
module TableFetch {
  import opened Basics
  import opened Wire
  import opened Arena
  import opened RecordWalk
  import opened DirectRes
  import opened DirectResRpc
  import opened FetchArena

  /** The action part; a kind other than DATA and INDIRECT carries nothing. */
  datatype Body = Bare(kind: u32) | Data(actionId: u32, data: seq<byte>) | Indirect(handle: u64)

  /** The ttl is only there when bit 0 of the valid properties says so. */
  datatype Props = Props(valid: u32, ttl: Option<u64>)

  datatype Head = Head(handle: u64, priority: u32, key: seq<byte>, body: Body, props: Props)

  datatype Fetched = Fetched(head: Head, configs: seq<One>)

  // ----------------------------------------------------------------- format

  predicate BodyOk(b: Body) {
    match b
    case Bare(kind) => kind != 1 && kind != 2
    case Data(_, data) => |data| < 0x1_0000_0000
    case Indirect(_) => true
  }

  predicate HeadOk(keyBytes: nat, x: Head) {
    |x.key| == keyBytes && BodyOk(x.body) && (x.props.ttl.Some? <==> x.props.valid % 2 == 1)
  }

  function EncBody(h: Host, b: Body): seq<byte>
    requires BodyOk(b)
  {
    match b
    case Bare(kind) => EncU32(h, kind)
    case Data(id, data) => EncU32(h, 1) + (EncU32(h, id) + (EncU32(h, |data|) + data))
    case Indirect(handle) => EncU32(h, 2) + EncU64(h, handle)
  }

  function EncProps(h: Host, p: Props): seq<byte> {
    EncU32(h, p.valid) + if p.ttl.Some? then EncU64(h, p.ttl.value) else []
  }

  function EncHead(h: Host, x: Head): seq<byte>
    requires BodyOk(x.body)
  {
    EncU64(h, x.handle) + (EncU32(h, x.priority) + (x.key + (EncBody(h, x.body) + EncProps(h, x.props))))
  }

  predicate EntryOk(reg: Registry, keyBytes: nat, x: Fetched) {
    HeadOk(keyBytes, x.head) && Sendable(reg, x.configs)
  }

  function EncEntry(reg: Registry, keyBytes: nat, x: Fetched): seq<byte>
    requires EntryOk(reg, keyBytes, x)
  {
    EncHead(reg.host, x.head) + EncConfigs(reg, x.configs)
  }

  predicate AllOk(reg: Registry, keyBytes: nat, xs: seq<Fetched>) {
    xs == [] || (EntryOk(reg, keyBytes, xs[0]) && AllOk(reg, keyBytes, xs[1..]))
  }

  /** The blob a target returns for xs. */
  function EncEntries(reg: Registry, keyBytes: nat, xs: seq<Fetched>): seq<byte>
    requires AllOk(reg, keyBytes, xs)
  {
    if xs == [] then [] else EncEntry(reg, keyBytes, xs[0]) + EncEntries(reg, keyBytes, xs[1..])
  }

  /** What an entry takes of the arena. */
  function ShapeOf(reg: Registry, x: Fetched): Shape {
    Shape(x.head.body.Data?, SizesOf(reg, x.configs))
  }

  function Shapes(reg: Registry, xs: seq<Fetched>): seq<Shape> {
    if xs == [] then [] else [ShapeOf(reg, xs[0])] + Shapes(reg, xs[1..])
  }

  /** Where the parts of an entry are: handle, priority, key, action, properties, direct resources. */
  lemma EntryLayout(reg: Registry, keyBytes: nat, x: Fetched)
    requires EntryOk(reg, keyBytes, x)
    ensures var s, h, n, m := EncEntry(reg, keyBytes, x), reg.host, 12 + keyBytes + |EncBody(reg.host, x.head.body)|, |EncProps(reg.host, x.head.props)|;
      && n + m <= |s| && s[..8] == EncU64(h, x.head.handle) && s[8..12] == EncU32(h, x.head.priority) && s[12..12 + keyBytes] == x.head.key
      && s[12 + keyBytes..n] == EncBody(h, x.head.body) && s[n..n + m] == EncProps(h, x.head.props) && s[n + m..] == EncConfigs(reg, x.configs)
  {
    var h := reg.host;
    SixPieces(EncU64(h, x.head.handle), EncU32(h, x.head.priority), x.head.key, EncBody(h, x.head.body), EncProps(h, x.head.props),
              EncConfigs(reg, x.configs), EncEntry(reg, keyBytes, x));
  }

  lemma SixPieces(a: seq<byte>, b: seq<byte>, c: seq<byte>, d: seq<byte>, e: seq<byte>, f: seq<byte>, s: seq<byte>)
    requires |a| == 8 && |b| == 4 && s == (a + (b + (c + (d + e)))) + f
    ensures var n, m := 12 + |c| + |d|, |e|;
      && n + m <= |s| && s[..8] == a && s[8..12] == b && s[12..12 + |c|] == c && s[12 + |c|..n] == d && s[n..n + m] == e && s[n + m..] == f
  {
  }

  /** The action: kind 1 with id, length and data, kind 2 with a handle, any other kind with nothing. */
  lemma BodyLayout(h: Host, b: Body)
    requires BodyOk(b)
    ensures var s := EncBody(h, b);
      match b
      case Bare(kind) => s == EncU32(h, kind)
      case Data(id, data) => |s| == 12 + |data| && s[..4] == EncU32(h, 1) && s[4..8] == EncU32(h, id) && s[8..12] == EncU32(h, |data|) && s[12..] == data
      case Indirect(handle) => |s| == 12 && s[..4] == EncU32(h, 2) && s[4..] == EncU64(h, handle)
  {
  }

  // ---------------------------------------------------------------- reading

  /** The switch over the entry type, which has no default case. */
  method ReadBody(h: Host, s: seq<byte>, ghost b: Body, ghost rest: seq<byte>) returns (r: Body, len: nat)
    requires BodyOk(b) && s == EncBody(h, b) + rest
    ensures r == b && len == |EncBody(h, b)|
  {
    BodySplit(h, b, rest);
    var kind := DecU32(h, s);
    len := 4;
    if kind == 1 {
      var id := DecU32(h, s[len..]);
      len := len + 4;
      var n := DecU32(h, s[len..]);
      len := len + 4;
      r := Data(id, s[len..][..n]);
      len := len + n;
    } else if kind == 2 {
      r := Indirect(DecU64(h, s[len..]));
      len := len + 8;
    } else {
      r := Bare(kind);
    }
  }

  lemma BodySplit(h: Host, b: Body, rest: seq<byte>)
    requires BodyOk(b)
    ensures var s := EncBody(h, b) + rest;
      match b
      case Bare(kind) => DecU32(h, s) == kind && |s| >= 4
      case Data(id, data) =>
        && DecU32(h, s) == 1 && DecU32(h, s[4..]) == id && DecU32(h, s[8..]) == |data|
        && |s| >= 12 + |data| && s[12..][..|data|] == data
      case Indirect(handle) => DecU32(h, s) == 2 && DecU64(h, s[4..]) == handle
  {
    match b {
      case Bare(kind) => U32Back(h, kind, rest);
      case Data(id, data) =>
        var s2 := EncU32(h, |data|) + (data + rest);
        var s1 := EncU32(h, id) + s2;
        var s := EncU32(h, 1) + s1;
        assert EncBody(h, b) + rest == s;
        U32Back(h, 1, s1);
        U32Back(h, id, s2);
        U32Back(h, |data|, data + rest);
        assert s[8..] == s1[4..] && s[12..] == s2[4..];
      case Indirect(handle) =>
        Regroup(EncU32(h, 2), EncU64(h, handle), rest);
        U32Back(h, 2, EncU64(h, handle) + rest);
        U64Back(h, handle, rest);
    }
  }

  method ReadProps(h: Host, s: seq<byte>, ghost p: Props, ghost rest: seq<byte>) returns (r: Props, len: nat)
    requires (p.ttl.Some? <==> p.valid % 2 == 1) && s == EncProps(h, p) + rest
    ensures r == p && len == |EncProps(h, p)|
  {
    ghost var ttl := if p.ttl.Some? then EncU64(h, p.ttl.value) else [];
    Regroup(EncU32(h, p.valid), ttl, rest);
    U32Back(h, p.valid, ttl + rest);
    var valid := DecU32(h, s);
    len := 4;
    r := Props(valid, None);
    if valid % 2 == 1 {
      U64Back(h, p.ttl.value, rest);
      r := Props(valid, Some(DecU64(h, s[len..])));
      len := len + 8;
    }
  }

  lemma Cut(a: seq<byte>, b: seq<byte>)
    ensures (a + b)[..|a|] == a && (a + b)[|a|..] == b
  {
  }

  /** Everything before the direct resources. */
  method ReadHead(h: Host, keyBytes: nat, s: seq<byte>, ghost x: Head, ghost rest: seq<byte>) returns (r: Head, len: nat)
    requires HeadOk(keyBytes, x) && s == EncHead(h, x) + rest
    ensures r == x && len == |EncHead(h, x)|
  {
    ghost var props := EncProps(h, x.props) + rest;
    ghost var body := EncBody(h, x.body) + props;
    ghost var key := x.key + body;
    HeadSplit(h, x, rest);
    U64Back(h, x.handle, EncU32(h, x.priority) + key);
    U32Back(h, x.priority, key);
    Cut(x.key, body);
    Cut(EncBody(h, x.body), props);

    var left := s;
    var handle := DecU64(h, left);
    left, len := left[8..], 8;
    var priority := DecU32(h, left);
    left, len := left[4..], len + 4;
    var mkey := left[..keyBytes];
    left, len := left[keyBytes..], len + keyBytes;
    var b, n := ReadBody(h, left, x.body, props);
    left, len := left[n..], len + n;
    var p, m := ReadProps(h, left, x.props, rest);
    len := len + m;
    r := Head(handle, priority, mkey, b, p);
  }

  lemma HeadSplit(h: Host, x: Head, rest: seq<byte>)
    requires BodyOk(x.body)
    ensures EncHead(h, x) + rest ==
      EncU64(h, x.handle) + (EncU32(h, x.priority) + (x.key + (EncBody(h, x.body) + (EncProps(h, x.props) + rest))))
  {
  }

  // ---------------------------------------------------------------- carving

  method CarveFixed(z: StructSizes, isData: bool) returns (cnt: nat, placed: seq<Region>)
    ensures cnt == FixedEnd(z, isData) && placed == FixedRegions(z, isData)
  {
    cnt := 0;
    placed := [Region(cnt, z.key)];
    cnt := Align(cnt + z.key);
    if isData {
      placed := placed + [Region(cnt, z.data)];
      cnt := Align(cnt + z.data);
    }
    placed := placed + [Region(cnt, z.props)];
    cnt := Align(cnt + z.props);
  }

  method CarveArrays(z: StructSizes, d: Direct, cnt: nat, n: nat) returns (at: nat, placed: seq<Region>)
    ensures at == SlotsStart(z, d, cnt) && placed == ArrayRegions(z, cnt, n)
  {
    at := cnt;
    placed := [Region(at, z.header)];
    at := Align(at + z.header);
    placed := placed + [Region(at, Times(n, z.one))];
    at := Align(at + Times(d.num, z.one));
  }

  /** The loop over the configurations: each goes into the next slot. */
  method ReadIntoSlots(reg: Registry, maxSize: nat, read: nat -> Read<One>, p: nat, n: nat, at: nat, ghost cs: seq<One>, ghost end: nat)
    returns (s: nat, configs: seq<One>, placed: seq<Region>)
    requires n == |cs| && Walks(read, p, cs, end)
    ensures s == end && configs == cs && placed == Slots(maxSize, at, SizesOf(reg, cs))
  {
    var size, after := (c: One) => SizeOf(reg, c), (slot: nat, n: nat) => slot + maxSize;
    s, configs, placed := RetrieveEach(read, size, after, p, n, at, cs, end);
    PlacesAreSlots(reg, maxSize, size, after, at, cs);
  }

  lemma {:induction false} PlacesAreSlots(reg: Registry, maxSize: nat, size: One -> nat, after: (nat, nat) -> nat, at: nat, cs: seq<One>)
    requires forall c :: size(c) == SizeOf(reg, c)
    requires forall a: nat, n: nat :: after(a, n) == a + maxSize
    ensures Places(size, after, at, cs) == Slots(maxSize, at, SizesOf(reg, cs))
    decreases |cs|
  {
    if cs != [] {
      PlacesAreSlots(reg, maxSize, size, after, at + maxSize, cs[1..]);
      assert SizesOf(reg, cs)[1..] == SizesOf(reg, cs[1..]);
    }
  }

  /** The direct resources of an entry: list, bytes taken, and what was carved for it. */
  method ReadConfigs(reg: Registry, z: StructSizes, d: Direct, src: seq<byte>, cnt: nat, ghost cs: seq<One>, ghost rest: seq<byte>)
    returns (configs: seq<One>, s: nat, placed: seq<Region>)
    requires Sendable(reg, cs) && src == EncConfigs(reg, cs) + rest && (cs == [] || d.num > 0)
    ensures configs == cs && s == |EncConfigs(reg, cs)|
    ensures placed == if cs == [] then [] else
      ArrayRegions(z, cnt, |cs|) + Slots(d.maxSize, SlotsStart(z, d, cnt), SizesOf(reg, cs))
  {
    EmittedListIsWalked(reg, cs, src, rest);
    var n := DecU32(reg.host, src);
    s := 4;
    configs, placed := [], [];
    assert n == 0 || d.num > 0;
    if n > 0 {
      var at, arrays := CarveArrays(z, d, cnt, n);
      var slots;
      s, configs, slots := ReadIntoSlots(reg, d.maxSize, Reader(reg, src), s, n, at, cs, |EncConfigs(reg, cs)|);
      placed := arrays + slots;
    }
  }

  /** One entry off the front of src, and where its sub-objects go within its share. */
  method ReadEntry(reg: Registry, z: StructSizes, d: Direct, keyBytes: nat, src: seq<byte>, ghost x: Fetched, ghost later: seq<byte>)
    returns (e: Fetched, len: nat, placed: seq<Region>)
    requires EntryOk(reg, keyBytes, x) && (x.configs == [] || d.num > 0)
    requires src == EncHead(reg.host, x.head) + (EncConfigs(reg, x.configs) + later)
    ensures e == x && len == |EncEntry(reg, keyBytes, x)|
    ensures placed == Carved(z, d, x.head.body.Data?, SizesOf(reg, x.configs))
  {
    Cut(EncHead(reg.host, x.head), EncConfigs(reg, x.configs) + later);
    var head, n := ReadHead(reg.host, keyBytes, src, x.head, EncConfigs(reg, x.configs) + later);
    var cnt, fixed := CarveFixed(z, head.body.Data?);
    var configs, m, arrays := ReadConfigs(reg, z, d, src[n..], cnt, x.configs, later);
    e, len := Fetched(head, configs), n + m;
    placed := fixed + arrays;
    assert fixed + [] == fixed;
  }

  // ---------------------------------------------------------------- iterator

  class FetchRes {
    const reg: Registry
    const z: StructSizes
    const d: Direct
    const perEntry: nat
    const numEntries: nat
    const keyBytes: nat
    const entries: seq<byte>
    var idx: nat
    var curr: nat

    /** pi_table_entries_fetch once the target has returned its blob. */
    constructor (reg: Registry, z: StructSizes, directSizes: seq<nat>, numEntries: nat, keyBytes: nat, entries: seq<byte>)
      ensures this.reg == reg && this.z == z && this.numEntries == numEntries && this.keyBytes == keyBytes
      ensures this.entries == entries && idx == 0 && curr == 0
      ensures perEntry == PerEntry(z, d) && d.num == |directSizes| && Aligned(d.maxSize)
      ensures forall i :: 0 <= i < |directSizes| ==> Align(directSizes[i]) <= d.maxSize
    {
      var d', perEntry' := PrepareFetchRes(z, directSizes);
      this.reg, this.z, this.d, this.perEntry := reg, z, d', perEntry';
      this.numEntries, this.keyBytes, this.entries := numEntries, keyBytes, entries;
      idx, curr := 0, 0;
    }

    /** The entries xs are still to come, and rest after them. */
    ghost predicate Ahead(xs: seq<Fetched>, rest: seq<byte>)
      reads this
    {
      && AllOk(reg, keyBytes, xs) && idx + |xs| == numEntries
      && curr <= |entries| && entries[curr..] == EncEntries(reg, keyBytes, xs) + rest
    }

    /** An entry is handed out in order and once; past the last one nothing changes. */
    method Next(ghost xs: seq<Fetched>, ghost rest: seq<byte>) returns (i: nat, e: Option<Fetched>, placed: seq<Region>)
      requires Ahead(xs, rest) && (xs == [] || xs[0].configs == [] || d.num > 0)
      modifies this`idx, this`curr
      ensures i == old(idx)
      ensures xs == [] ==> i == numEntries && e.None? && placed == [] && unchanged(this)
      ensures xs != [] ==> e == Some(xs[0]) && idx == i + 1 && Ahead(xs[1..], rest)
      ensures xs != [] ==>
        var shape := ShapeOf(reg, xs[0]);
        placed == Shifted(Carved(z, d, shape.isData, shape.sizes), Times(i, perEntry))
    {
      if idx == numEntries {
        return idx, None, [];
      }
      EntrySplit(reg, keyBytes, xs[0], EncEntries(reg, keyBytes, xs[1..]), rest, entries, curr);
      var x, len, carved := ReadEntry(reg, z, d, keyBytes, entries[curr..], xs[0], EncEntries(reg, keyBytes, xs[1..]) + rest);
      curr := curr + len;
      e := Some(x);
      placed := Shifted(carved, Times(idx, perEntry));
      i := idx;
      idx := idx + 1;
    }
  }

  lemma EntrySplit(reg: Registry, keyBytes: nat, x: Fetched, others: seq<byte>, rest: seq<byte>, src: seq<byte>, p: nat)
    requires EntryOk(reg, keyBytes, x)
    requires p <= |src| && src[p..] == (EncEntry(reg, keyBytes, x) + others) + rest
    ensures src[p..] == EncHead(reg.host, x.head) + (EncConfigs(reg, x.configs) + (others + rest))
    ensures var q := p + |EncEntry(reg, keyBytes, x)|; q <= |src| && src[q..] == others + rest
  {
    var a, b := EncHead(reg.host, x.head), EncConfigs(reg, x.configs);
    assert ((a + b) + others) + rest == a + (b + (others + rest));
    assert src[p + |a + b|..] == src[p..][|a + b|..];
  }

  /** The table's direct resources cover what each entry holds. */
  ghost predicate AllFit(reg: Registry, d: Direct, xs: seq<Fetched>) {
    xs == [] || (Covered(d, SizesOf(reg, xs[0].configs)) && AllFit(reg, d, xs[1..]))
  }

  lemma {:induction false} ShapesCovered(reg: Registry, d: Direct, xs: seq<Fetched>)
    requires AllFit(reg, d, xs)
    ensures AllCovered(d, Shapes(reg, xs)) && |Shapes(reg, xs)| == |xs|
    decreases |xs|
  {
    if xs != [] {
      ShapesCovered(reg, d, xs[1..]);
      assert Shapes(reg, xs)[1..] == Shapes(reg, xs[1..]);
    }
  }

  /**
   A caller taking all entries off a blob that encodes xs: gets xs, in order, with the cursor at
   the blob's end; and everything handed out on the way is aligned, pairwise apart and inside
   the block, so an entry stays intact while later ones are read.
   */
  method TakeAll(res: FetchRes, ghost xs: seq<Fetched>) returns (es: seq<Fetched>, placed: seq<Region>)
    requires res.idx == 0 && res.curr == 0 && res.perEntry == PerEntry(res.z, res.d) && Aligned(res.d.maxSize)
    requires AllOk(res.reg, res.keyBytes, xs) && |xs| == res.numEntries && AllFit(res.reg, res.d, xs)
    requires res.entries == EncEntries(res.reg, res.keyBytes, xs)
    modifies res
    ensures es == xs && res.idx == res.numEntries && res.curr == |res.entries|
    ensures LaidOut(placed, 0, Times(res.numEntries, res.perEntry))
  {
    assert res.entries[0..] == res.entries;
    NoMore(res.entries);
    es, placed := TakeEach(res, xs);
    AllLaidOut(res.reg, res.z, res.d, xs);
  }

  /** The caller's loop. */
  method TakeEach(res: FetchRes, ghost xs: seq<Fetched>) returns (es: seq<Fetched>, placed: seq<Region>)
    requires res.idx == 0 && res.perEntry == PerEntry(res.z, res.d) && res.Ahead(xs, []) && AllFit(res.reg, res.d, xs)
    modifies res
    ensures es == xs && res.Ahead([], [])
    ensures placed == AllCarved(res.z, res.d, 0, Shapes(res.reg, xs))
  {
    es, placed := [], [];
    ghost var todo := xs;
    while res.idx < res.numEntries
      invariant res.Ahead(todo, []) && AllFit(res.reg, res.d, todo)
      invariant es + todo == xs
      invariant placed + AllCarved(res.z, res.d, res.idx, Shapes(res.reg, todo)) == AllCarved(res.z, res.d, 0, Shapes(res.reg, xs))
      decreases res.numEntries - res.idx
    {
      var i, e, now := res.Next(todo, []);
      NextOver(es, todo);
      NextShare(res.reg, res.z, res.d, i, todo, placed);
      es, placed := es + [e.value], placed + now;
      todo := todo[1..];
    }
    assert todo == [];
    NoMore(es);
    NoMore(placed);
  }

  lemma AllLaidOut(reg: Registry, z: StructSizes, d: Direct, xs: seq<Fetched>)
    requires Aligned(d.maxSize) && AllFit(reg, d, xs)
    ensures LaidOut(AllCarved(z, d, 0, Shapes(reg, xs)), 0, Times(|xs|, PerEntry(z, d)))
  {
    ShapesCovered(reg, d, xs);
    ArenaIsSafe(z, d, 0, Shapes(reg, xs));
  }

  lemma NextShare(reg: Registry, z: StructSizes, d: Direct, i: nat, todo: seq<Fetched>, placed: seq<Region>)
    requires todo != []
    ensures var shape := ShapeOf(reg, todo[0]);
      placed + AllCarved(z, d, i, Shapes(reg, todo)) ==
      (placed + Shifted(Carved(z, d, shape.isData, shape.sizes), Times(i, PerEntry(z, d)))) + AllCarved(z, d, i + 1, Shapes(reg, todo[1..]))
  {
    assert Shapes(reg, todo)[1..] == Shapes(reg, todo[1..]);
  }
}
