/**
 Direct resource lists as src/pi_rpc_server.c sends and receives them. The sender predicts the
 size and then emits; the receiver goes over the message twice, once to size one allocation
 for everything and once to fill it.
 */
module DirectResRpc {
  import opened Basics
  import opened Wire
  import opened Arena
  import opened DirectRes
  import opened RecordWalk

  // ---------------------------------------------------------------- sending

  method DirectResConfigSize(reg: Registry, cs: seq<One>) returns (s: nat)
    requires Registered(reg, cs)
    ensures s == ConfigsSize(reg, cs)
  {
    s := 4;
    var todo := cs;
    while todo != []
      invariant Registered(reg, todo) && s + RecordsSizeOf(reg, todo) == ConfigsSize(reg, cs)
    {
      s := s + 4;
      s := s + 4;
      s := s + CodecOf(reg, todo[0]).msgSize(todo[0].config);
      todo := todo[1..];
    }
  }

  method EmitDirectResConfig(reg: Registry, dst: array<byte>, off: nat, cs: seq<One>) returns (s: nat)
    requires Sendable(reg, cs) && off + ConfigsSize(reg, cs) <= dst.Length
    modifies dst
    ensures s == ConfigsSize(reg, cs)
    ensures dst[..off + s] == old(dst[..off]) + EncConfigs(reg, cs)
    ensures dst[off + s..] == old(dst[off + s..])
  {
    ghost var whole := dst[..off] + EncConfigs(reg, cs);
    Put(dst, off, EncU32(reg.host, |cs|));
    s := 4;
    var todo := cs;
    Regroup(old(dst[..off]), EncU32(reg.host, |cs|), EncRecords(reg, cs));
    while todo != []
      invariant Registered(reg, todo) && s + RecordsSizeOf(reg, todo) == ConfigsSize(reg, cs)
      invariant dst[..off + s] + EncRecords(reg, todo) == whole
      invariant dst[off + s..] == old(dst[off + s..])
    {
      s := EmitNext(reg, dst, off, s, todo[0], EncRecords(reg, todo[1..]), whole);
      todo := todo[1..];
    }
    assert dst[..off + s] + [] == dst[..off + s];
  }

  /** One iteration: a record moves from what is still to come to what has been written. */
  method EmitNext(reg: Registry, dst: array<byte>, off: nat, s: nat, c: One, ghost later: seq<byte>, ghost whole: seq<byte>)
    returns (s': nat)
    requires Fits(reg, c) && off + s + |EncOne(reg, c)| <= dst.Length
    requires dst[..off + s] + (EncOne(reg, c) + later) == whole
    modifies dst
    ensures s' == s + |EncOne(reg, c)|
    ensures dst[..off + s'] + later == whole
    ensures dst[off + s'..] == old(dst[off + s'..])
  {
    Regroup(dst[..off + s], EncOne(reg, c), later);
    var n := EmitOne(reg, dst, off + s, c);
    s' := s + n;
  }

  /** One record: id, size, configuration. */
  method EmitOne(reg: Registry, dst: array<byte>, off: nat, c: One) returns (n: nat)
    requires Fits(reg, c) && off + |EncOne(reg, c)| <= dst.Length
    modifies dst
    ensures n == |EncOne(reg, c)|
    ensures dst[..off + n] == old(dst[..off]) + EncOne(reg, c)
    ensures dst[off + n..] == old(dst[off + n..])
  {
    LawOf(CodecOf(reg, c), c.config, []);
    n := PutThree(dst, off, EncU32(reg.host, c.resId), EncU32(reg.host, CodecOf(reg, c).msgSize(c.config)),
                  CodecOf(reg, c).emit(c.config));
  }

  // -------------------------------------------------------------- receiving

  /** sizeof a configuration, as registered for its type. */
  function SizeOf(reg: Registry, c: One): nat {
    if TypeOf(c.resId) in reg.types then CodecOf(reg, c).sizeOf else 0
  }

  function SizesOf(reg: Registry, cs: seq<One>): (r: seq<nat>)
    ensures |r| == |cs|
  {
    if cs == [] then [] else [SizeOf(reg, cs[0])] + SizesOf(reg, cs[1..])
  }

  /** The id a record at p starts with, and the size it claims for its configuration. */
  function IdAt(reg: Registry, src: seq<byte>, p: nat): u32
    requires p + 8 <= |src|
  {
    DecU32(reg.host, src[p..])
  }

  function ClaimAt(reg: Registry, src: seq<byte>, p: nat): nat
    requires p + 8 <= |src|
  {
    DecU32(reg.host, src[p + 4..])
  }

  /** There is room for a record's two words at p, and its type is registered. */
  predicate Readable(reg: Registry, src: seq<byte>, p: nat) {
    p + 8 <= |src| && TypeOf(IdAt(reg, src, p)) in reg.types
  }

  function FnsAt(reg: Registry, src: seq<byte>, p: nat): ResCodec
    requires Readable(reg, src, p)
  {
    reg.types[TypeOf(IdAt(reg, src, p))]
  }

  /** The allocating pass at p: the size in memory, and how far it skips, by the claim. */
  function SkipOne(reg: Registry, src: seq<byte>, p: nat): Read<nat> {
    if Readable(reg, src, p) then Some((FnsAt(reg, src, p).sizeOf, 8 + ClaimAt(reg, src, p))) else None
  }

  /** The retrieving pass at p: the configuration, and the bytes it took. */
  function ReadOne(reg: Registry, src: seq<byte>, p: nat): Read<One> {
    if !Readable(reg, src, p) then None
    else
      match FnsAt(reg, src, p).retrieve(src[p + 8..])
      case None => None
      case Some((config, len)) => Some((One(IdAt(reg, src, p), config), 8 + len))
  }

  function Skipper(reg: Registry, src: seq<byte>): nat -> Read<nat> {
    (p: nat) => SkipOne(reg, src, p)
  }

  function Reader(reg: Registry, src: seq<byte>): nat -> Read<One> {
    (p: nat) => ReadOne(reg, src, p)
  }

  /** The record at p claims the size its retrieve function takes. */
  ghost predicate Honest(reg: Registry, src: seq<byte>, p: nat) {
    ReadOne(reg, src, p).Some? && ReadOne(reg, src, p).value.1 == 8 + ClaimAt(reg, src, p)
  }

  /** Every record along the retrieving walk does. */
  ghost predicate HonestFrom(reg: Registry, src: seq<byte>, p: nat, n: nat)
    decreases n
  {
    n > 0 ==> Honest(reg, src, p) && HonestFrom(reg, src, p + ReadOne(reg, src, p).value.1, n - 1)
  }

  lemma {:induction false} InStepIffHonest(reg: Registry, src: seq<byte>, p: nat, n: nat)
    ensures InStep(Reader(reg, src), Skipper(reg, src), p, n) <==> HonestFrom(reg, src, p, n)
    decreases n
  {
    if n > 0 && ReadOne(reg, src, p).Some? {
      InStepIffHonest(reg, src, p + ReadOne(reg, src, p).value.1, n - 1);
    }
  }

  /**
   Two-walk agreement on every message, whoever wrote it: both passes get through n records and
   stand at the same places iff every record can be read and claims its true size.
   */
  lemma WalksAgreeIff(reg: Registry, src: seq<byte>, p: nat, n: nat)
    ensures SameStops(Reader(reg, src), Skipper(reg, src), p, n) <==> HonestFrom(reg, src, p, n)
  {
    SameStopsIff(Reader(reg, src), Skipper(reg, src), p, n);
    InStepIffHonest(reg, src, p, n);
  }

  /** Either pass over one record standing at p. */
  lemma RecordBack(reg: Registry, c: One, src: seq<byte>, p: nat)
    requires Fits(reg, c) && At(src, p, EncOne(reg, c))
    ensures ReadOne(reg, src, p) == Some((c, |EncOne(reg, c)|))
    ensures SkipOne(reg, src, p) == Some((SizeOf(reg, c), |EncOne(reg, c)|))
  {
    var k, rest := CodecOf(reg, c), src[p + |EncOne(reg, c)|..];
    LawOf(k, c.config, rest);
    var body := k.emit(c.config) + rest;
    assert src[p..] == EncOne(reg, c) + rest;
    assert src[p..] == EncU32(reg.host, c.resId) + (EncU32(reg.host, k.msgSize(c.config)) + body);
    U32Back(reg.host, c.resId, EncU32(reg.host, k.msgSize(c.config)) + body);
    assert src[p + 4..] == src[p..][4..];
    U32Back(reg.host, k.msgSize(c.config), body);
    assert src[p + 8..] == src[p + 4..][4..];
  }

  lemma RecordDecodes(reg: Registry, c: One, src: seq<byte>)
    requires Fits(reg, c)
    ensures Decodes(Reader(reg, src), src, EncOne(reg, c), c)
    ensures Decodes(Skipper(reg, src), src, EncOne(reg, c), SizeOf(reg, c))
  {
    forall p: nat | At(src, p, EncOne(reg, c))
      ensures Reader(reg, src)(p) == Some((c, |EncOne(reg, c)|))
      ensures Skipper(reg, src)(p) == Some((SizeOf(reg, c), |EncOne(reg, c)|))
    {
      RecordBack(reg, c, src, p);
    }
  }

  function Encodings(reg: Registry, cs: seq<One>): seq<seq<byte>>
    requires Registered(reg, cs)
  {
    if cs == [] then [] else [EncOne(reg, cs[0])] + Encodings(reg, cs[1..])
  }

  lemma {:induction false} RecordsDecode(reg: Registry, cs: seq<One>, src: seq<byte>)
    requires Registered(reg, cs)
    ensures DecodesAll(Reader(reg, src), src, Encodings(reg, cs), cs)
    ensures DecodesAll(Skipper(reg, src), src, Encodings(reg, cs), SizesOf(reg, cs))
    ensures Flat(Encodings(reg, cs)) == EncRecords(reg, cs)
    decreases |cs|
  {
    if cs != [] {
      RecordDecodes(reg, cs[0], src);
      RecordsDecode(reg, cs[1..], src);
      assert Encodings(reg, cs)[1..] == Encodings(reg, cs[1..]) && SizesOf(reg, cs)[1..] == SizesOf(reg, cs[1..]);
    }
  }

  /** Both passes get over emitted records, to the same end, with the list and its sizes. */
  lemma RecordsBack(reg: Registry, cs: seq<One>, src: seq<byte>, p: nat, rest: seq<byte>)
    requires Registered(reg, cs) && p <= |src| && src[p..] == EncRecords(reg, cs) + rest
    ensures Walks(Reader(reg, src), p, cs, p + |EncRecords(reg, cs)|)
    ensures Walks(Skipper(reg, src), p, SizesOf(reg, cs), p + |EncRecords(reg, cs)|)
  {
    RecordsDecode(reg, cs, src);
    BothWalks(Reader(reg, src), Skipper(reg, src), src, Encodings(reg, cs), cs, SizesOf(reg, cs), p, rest);
  }

  lemma BothWalks<A, B>(f: nat -> Read<A>, g: nat -> Read<B>, src: seq<byte>, es: seq<seq<byte>>, xs: seq<A>, ys: seq<B>, p: nat, rest: seq<byte>)
    requires DecodesAll(f, src, es, xs) && DecodesAll(g, src, es, ys)
    requires p <= |src| && src[p..] == Flat(es) + rest
    ensures Walks(f, p, xs, p + |Flat(es)|) && Walks(g, p, ys, p + |Flat(es)|)
  {
    WalkBack(f, src, es, xs, p, rest);
    WalkBack(g, src, es, ys, p, rest);
  }

  /** On an emitted list the passes agree on every position. */
  lemma EmittedListIsHonest(reg: Registry, cs: seq<One>, src: seq<byte>, p: nat, rest: seq<byte>)
    requires Registered(reg, cs) && p <= |src| && src[p..] == EncRecords(reg, cs) + rest
    ensures SameStops(Reader(reg, src), Skipper(reg, src), p, |cs|) && HonestFrom(reg, src, p, |cs|)
  {
    RecordsDecode(reg, cs, src);
    DecodersInStep(Reader(reg, src), Skipper(reg, src), src, Encodings(reg, cs), cs, SizesOf(reg, cs), p, rest);
    SameStopsIff(Reader(reg, src), Skipper(reg, src), p, |cs|);
    InStepIffHonest(reg, src, p, |cs|);
  }

  /** A record as emitted, but for the size it claims. */
  function Misstated(reg: Registry, c: One, claim: u32): seq<byte>
    requires Fits(reg, c)
  {
    EncU32(reg.host, c.resId) + (EncU32(reg.host, claim) + CodecOf(reg, c).emit(c.config))
  }

  /** Both passes get over such a record, but go on from different places. */
  lemma MisstatedDisagrees(reg: Registry, c: One, claim: u32)
    requires Fits(reg, c) && claim != CodecOf(reg, c).msgSize(c.config)
    ensures var src := Misstated(reg, c, claim);
      && ReadOne(reg, src, 0) == Some((c, |src|)) && SkipOne(reg, src, 0) == Some((SizeOf(reg, c), 8 + claim))
      && !HonestFrom(reg, src, 0, 1) && !SameStops(Reader(reg, src), Skipper(reg, src), 0, 1)
  {
    var k, src := CodecOf(reg, c), Misstated(reg, c, claim);
    var config := k.emit(c.config);
    LawOf(k, c.config, []);
    assert config + [] == config;
    U32Back(reg.host, c.resId, EncU32(reg.host, claim) + config);
    U32Back(reg.host, claim, config);
    assert src[0..] == src && src[8..] == src[4..][4..];
    WalksAgreeIff(reg, src, 0, 1);
  }

  /** Such messages exist: a counter whose 20 bytes are announced as 12. */
  lemma MisstatedCounter(h: Host) returns (reg: Registry, src: seq<byte>)
    ensures |src| == 28 && !SameStops(Reader(reg, src), Skipper(reg, src), 0, 1)
    ensures Passable(Reader(reg, src), 0, 1) && Passable(Skipper(reg, src), 0, 1)
  {
    StandardFnsAreLawful(h, 24);
    var k: ResCodec := CounterFns(h, 24);
    reg := Registry(h, map[1 := k]);
    var c := One(0x100_0000, Counter(0, 0, 0));
    CounterBack(h, c.config, []);
    src := Misstated(reg, c, 12);
    MisstatedDisagrees(reg, c, 12);
    StepPasses(Reader(reg, src), 0);
    StepPasses(Skipper(reg, src), 0);
  }

  lemma StepPasses<T>(step: nat -> Read<T>, p: nat)
    requires step(p).Some?
    ensures Passable(step, p, 1)
  {
    assert Passable(step, p + step(p).value.1, 0);
  }

  // ------------------------------------------------------------ one allocation

  /** sizeof the two fixed structures. */
  datatype Sizes = Sizes(header: nat, one: nat)

  datatype Block = Block(required: nat, headerStop: nat, configStart: nat)

  /** Where the configurations start, after a header and an array taking `ones` bytes. */
  function ConfigStart(header: nat, ones: nat): nat {
    Align(Align(header) + ones)
  }

  /** required_size as the allocating pass accumulates it from `start`. */
  function Required(start: nat, sizes: seq<nat>): nat
    decreases |sizes|
  {
    if sizes == [] then start else Required(Align(start + sizes[0]), sizes[1..])
  }

  /** Where the retrieving pass's own running total ends. */
  function EndOf(start: nat, sizes: seq<nat>): nat
    decreases |sizes|
  {
    if sizes == [] then start else EndOf(start + Align(sizes[0]), sizes[1..])
  }

  /** The regions the retrieving pass fills. */
  function Blobs(start: nat, sizes: seq<nat>): (rs: seq<Region>)
    ensures |rs| == |sizes|
    decreases |sizes|
  {
    if sizes == [] then [] else [Region(start, sizes[0])] + Blobs(start + Align(sizes[0]), sizes[1..])
  }

  lemma {:induction false} BlobSizes(reg: Registry, start: nat, cs: seq<One>)
    ensures forall i :: 0 <= i < |cs| ==> Blobs(start, SizesOf(reg, cs))[i].size == SizeOf(reg, cs[i])
    decreases |cs|
  {
    if cs != [] {
      assert SizesOf(reg, cs)[1..] == SizesOf(reg, cs[1..]);
      BlobSizes(reg, start + Align(SizeOf(reg, cs[0])), cs[1..]);
    }
  }

  /** The two running totals end at the same number, past regions that are aligned and apart. */
  lemma {:induction false} BlobsLaidOut(start: nat, sizes: seq<nat>)
    requires Aligned(start)
    ensures Required(start, sizes) == EndOf(start, sizes) >= start
    ensures LaidOut(Blobs(start, sizes), start, EndOf(start, sizes))
    decreases |sizes|
  {
    if sizes != [] {
      var next := start + Align(sizes[0]);
      AlignShift(start, sizes[0]);
      AlignAligned(sizes[0]);
      AlignedSum(start, Align(sizes[0]));
      BlobsLaidOut(next, sizes[1..]);
      LaidOutCons(Region(start, sizes[0]), Blobs(next, sizes[1..]), start, next, EndOf(next, sizes[1..]));
    }
  }

  function Front(header: nat, ones: nat): seq<Region> {
    [Region(0, header), Region(Align(header), ones)]
  }

  lemma FrontLaidOut(header: nat, ones: nat)
    ensures LaidOut(Front(header, ones), 0, ConfigStart(header, ones)) && Aligned(ConfigStart(header, ones))
  {
    ZeroAligned();
    AlignAligned(header);
    AlignAligned(Align(header) + ones);
    LaidOutCons(Region(Align(header), ones), [], Align(header), Align(header) + ones, ConfigStart(header, ones));
    LaidOutCons(Region(0, header), [Region(Align(header), ones)], 0, Align(header), ConfigStart(header, ones));
  }

  /** Everything placed in the block is aligned, apart, and inside what was asked of malloc. */
  lemma BlockIsSafe(header: nat, ones: nat, sizes: seq<nat>)
    ensures LaidOut(Front(header, ones) + Blobs(ConfigStart(header, ones), sizes), 0, Required(ConfigStart(header, ones), sizes))
  {
    var start := ConfigStart(header, ones);
    FrontLaidOut(header, ones);
    BlobsLaidOut(start, sizes);
    LaidOutConcat(Front(header, ones), Blobs(start, sizes), 0, start, EndOf(start, sizes));
  }

  /**
   The allocating pass over a message where it finds records of the given sizes; None stands for
   the null pointer.
   */
  method AllocateDirectResConfig(reg: Registry, z: Sizes, src: seq<byte>, ghost sizes: seq<nat>, ghost end: nat)
    returns (n: nat, block: Option<Block>)
    requires |sizes| == DecU32(reg.host, src) && Walks(Skipper(reg, src), 4, sizes, end)
    ensures n == |sizes| && (block.None? <==> n == 0)
    ensures block.Some? ==>
      var start := ConfigStart(z.header, Times(n, z.one));
      block.value == Block(Required(start, sizes), Align(z.header), start)
  {
    n := DecU32(reg.host, src);
    if n == 0 {
      return n, None;
    }
    var headerStop := Align(z.header);
    var configStart := Align(headerStop + Times(n, z.one));
    var required := AddUpSizes(Skipper(reg, src), 4, n, configStart, sizes, end);
    block := Some(Block(required, headerStop, configStart));
  }

  /** Its loop over n records from p on. */
  method AddUpSizes(skip: nat -> Read<nat>, p: nat, n: nat, configStart: nat, ghost sizes: seq<nat>, ghost end: nat)
    returns (required: nat)
    requires n == |sizes| && Walks(skip, p, sizes, end)
    ensures required == Required(configStart, sizes)
  {
    required := configStart;
    var s: nat, left: nat := p, n;
    ghost var todo := sizes;
    while left > 0
      invariant left == |todo| && Walks(skip, s, todo, end)
      invariant Required(required, todo) == Required(configStart, sizes)
    {
      var (sizeOf, len) := skip(s).value;
      s := s + len;
      required := required + sizeOf;
      required := Align(required);
      left := left - 1;
      todo := todo[1..];
    }
  }

  /** The retrieving pass over a block for n configurations; returns the bytes taken. */
  method RetrieveDirectResConfig(reg: Registry, src: seq<byte>, n: nat, block: Option<Block>, ghost cs: seq<One>, ghost end: nat)
    returns (s: nat, configs: seq<One>, placed: seq<Region>)
    requires (block.None? <==> n == 0) && n == |cs| && Walks(Reader(reg, src), 4, cs, end)
    ensures s == end && configs == cs
    ensures placed == if block.None? then [] else Blobs(block.value.configStart, SizesOf(reg, cs))
  {
    s := 4;
    configs, placed := [], [];
    if block.None? {
      return;
    }
    s, configs, placed := RetrieveRecords(reg, Reader(reg, src), s, n, block.value.configStart, cs, end);
  }

  /** Its loop: n records from position p, each put in a region of its own from offset `start` on. */
  method RetrieveRecords(reg: Registry, read: nat -> Read<One>, p: nat, n: nat, start: nat, ghost cs: seq<One>, ghost end: nat)
    returns (s: nat, configs: seq<One>, placed: seq<Region>)
    requires n == |cs| && Walks(read, p, cs, end)
    ensures s == end && configs == cs && placed == Blobs(start, SizesOf(reg, cs))
  {
    var size, after := (c: One) => SizeOf(reg, c), (at: nat, n: nat) => at + Align(n);
    s, configs, placed := RetrieveEach(read, size, after, p, n, start, cs, end);
    PlacesAreBlobs(reg, size, after, start, cs);
  }

  /** A region of its own for each of cs, where `after` says that the next one goes. */
  function Places(size: One -> nat, after: (nat, nat) -> nat, at: nat, cs: seq<One>): seq<Region>
    decreases |cs|
  {
    if cs == [] then [] else [Region(at, size(cs[0]))] + Places(size, after, after(at, size(cs[0])), cs[1..])
  }

  method RetrieveEach(read: nat -> Read<One>, size: One -> nat, after: (nat, nat) -> nat, p: nat, n: nat, start: nat, ghost cs: seq<One>, ghost end: nat)
    returns (s: nat, configs: seq<One>, placed: seq<Region>)
    requires n == |cs| && Walks(read, p, cs, end)
    ensures s == end && configs == cs && placed == Places(size, after, start, cs)
  {
    s := p;
    configs, placed := [], [];
    var at: nat, left: nat := start, n;
    ghost var todo, rooms := cs, Places(size, after, start, cs);
    while left > 0
      invariant left == |todo| && Walks(read, s, todo, end)
      invariant configs + todo == cs
      invariant rooms == Places(size, after, at, todo) && placed + rooms == Places(size, after, start, cs)
    {
      var (one, len) := read(s).value;
      NextOver(configs, todo);
      NextOver(placed, rooms);
      configs := configs + [one];
      placed := placed + [Region(at, size(one))];
      at := after(at, size(one));
      s := s + len;
      left := left - 1;
      todo, rooms := todo[1..], rooms[1..];
    }
  }

  lemma {:induction false} PlacesAreBlobs(reg: Registry, size: One -> nat, after: (nat, nat) -> nat, at: nat, cs: seq<One>)
    requires forall c :: size(c) == SizeOf(reg, c)
    requires forall a: nat, n: nat :: after(a, n) == a + Align(n)
    ensures Places(size, after, at, cs) == Blobs(at, SizesOf(reg, cs))
    decreases |cs|
  {
    if cs != [] {
      PlacesAreBlobs(reg, size, after, after(at, size(cs[0])), cs[1..]);
      FirstBlob(reg, at, cs);
    }
  }

  lemma FirstBlob(reg: Registry, at: nat, cs: seq<One>)
    requires cs != []
    ensures var size := SizeOf(reg, cs[0]);
      Blobs(at, SizesOf(reg, cs)) == [Region(at, size)] + Blobs(at + Align(size), SizesOf(reg, cs[1..]))
  {
    assert SizesOf(reg, cs)[1..] == SizesOf(reg, cs[1..]);
  }

  // ---------------------------------------------------------- both passes together

  /**
   A handler receiving an emitted list: the two passes give back the list and leave the cursor
   right behind it, and the block holds header, array and every configuration aligned, apart
   and inside what was allocated.
   */
  method Receive(reg: Registry, z: Sizes, src: seq<byte>, ghost cs: seq<One>, ghost rest: seq<byte>)
    returns (s: nat, block: Option<Block>, configs: seq<One>, placed: seq<Region>)
    requires Sendable(reg, cs) && src == EncConfigs(reg, cs) + rest
    ensures configs == cs && s == |EncConfigs(reg, cs)| && src[s..] == rest
    ensures block.None? <==> cs == []
    ensures block.Some? ==>
      && |placed| == |cs|
      && (forall i :: 0 <= i < |cs| ==> TypeOf(cs[i].resId) in reg.types && placed[i].size == reg.types[TypeOf(cs[i].resId)].sizeOf)
      && LaidOut(Front(z.header, Times(|cs|, z.one)) + placed, 0, block.value.required)
  {
    EmittedListIsWalked(reg, cs, src, rest);
    ghost var end := |EncConfigs(reg, cs)|;
    var n;
    n, block := AllocateDirectResConfig(reg, z, src, SizesOf(reg, cs), end);
    s, configs, placed := RetrieveDirectResConfig(reg, src, n, block, cs, end);
    BlockIsSafe(z.header, Times(|cs|, z.one), SizesOf(reg, cs));
    BlobSizes(reg, ConfigStart(z.header, Times(|cs|, z.one)), cs);
    forall i | 0 <= i < |cs| ensures Fits(reg, cs[i]) { RecordsAt(reg, cs, i); }
  }

  lemma EmittedListIsWalked(reg: Registry, cs: seq<One>, src: seq<byte>, rest: seq<byte>)
    requires Sendable(reg, cs) && src == EncConfigs(reg, cs) + rest
    ensures DecU32(reg.host, src) == |cs| && src[|EncConfigs(reg, cs)|..] == rest
    ensures Walks(Reader(reg, src), 4, cs, |EncConfigs(reg, cs)|)
    ensures Walks(Skipper(reg, src), 4, SizesOf(reg, cs), |EncConfigs(reg, cs)|)
  {
    Regroup(EncU32(reg.host, |cs|), EncRecords(reg, cs), rest);
    U32Back(reg.host, |cs|, EncRecords(reg, cs) + rest);
    RecordsBack(reg, cs, src, 4, rest);
  }
}
