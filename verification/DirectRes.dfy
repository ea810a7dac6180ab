/**
 Direct resource configurations of a table entry (src/pi.c, src/pi_rpc_server.c): a registry
 gives each resource type its own size, emit and retrieve functions; a list of configurations
 is sent as  num_configs | res_id | num_bytes | config | res_id | ...
 */
module DirectRes {
  import opened Basics
  import opened Wire

  /** In-memory configurations: the two standard kinds, and whatever a target registers. */
  datatype Config =
    | Counter(valid: u32, bytes: u64, packets: u64)
    | Meter(cir: u64, cburst: u32, pir: u64, pburst: u32, unit: u32, kind: u32)
    | Custom(image: seq<byte>)

  /** What pi_direct_res_register stores for a type. */
  datatype ResFns = ResFns(
    accepts: Config -> bool,
    msgSize: Config -> nat,
    emit: Config -> seq<byte>,
    sizeOf: nat,
    retrieve: seq<byte> -> Read<Config>)
  {
    /** The functions agree: the size is that of the bytes emitted, and retrieve undoes emit. */
    ghost predicate LawAt(c: Config, rest: seq<byte>) {
      accepts(c) ==>
        && msgSize(c) == |emit(c)| < 0x1_0000_0000
        && retrieve(emit(c) + rest) == Some((c, |emit(c)|))
    }

    ghost predicate Lawful() {
      forall c, rest :: LawAt(c, rest)
    }
  }

  // ------------------------------------------------ the two standard resources

  function EmitCounter(h: Host, c: Config): seq<byte> {
    if c.Counter? then EncU32(h, c.valid) + EncU64(h, c.bytes) + EncU64(h, c.packets) else []
  }

  function RetrieveCounter(h: Host, s: seq<byte>): Read<Config> {
    if |s| < 20 then None
    else Some((Counter(DecU32(h, s), DecU64(h, s[4..]), DecU64(h, s[12..])), 20))
  }

  function EmitMeter(h: Host, c: Config): seq<byte> {
    if c.Meter? then
      EncU64(h, c.cir) + EncU32(h, c.cburst) + EncU64(h, c.pir) + EncU32(h, c.pburst) + EncU32(h, c.unit) + EncU32(h, c.kind)
    else []
  }

  function RetrieveMeter(h: Host, s: seq<byte>): Read<Config> {
    if |s| < 32 then None
    else
      Some((Meter(DecU64(h, s), DecU32(h, s[8..]), DecU64(h, s[12..]), DecU32(h, s[20..]), DecU32(h, s[24..]), DecU32(h, s[28..])), 32))
  }

  function CounterFns(h: Host, sizeOf: nat): ResFns {
    ResFns((c: Config) => c.Counter?, (c: Config) => 20, (c: Config) => EmitCounter(h, c), sizeOf,
           (s: seq<byte>) => RetrieveCounter(h, s))
  }

  function MeterFns(h: Host, sizeOf: nat): ResFns {
    ResFns((c: Config) => c.Meter?, (c: Config) => 32, (c: Config) => EmitMeter(h, c), sizeOf,
           (s: seq<byte>) => RetrieveMeter(h, s))
  }

  /** Where the fields of a counter are. */
  lemma CounterLayout(h: Host, c: Config)
    requires c.Counter?
    ensures var s := EmitCounter(h, c);
      |s| == 20 && s[..4] == EncU32(h, c.valid) && s[4..12] == EncU64(h, c.bytes) && s[12..20] == EncU64(h, c.packets)
  {
  }

  /** And those of a meter. */
  lemma MeterLayout(h: Host, c: Config)
    requires c.Meter?
    ensures var s := EmitMeter(h, c);
      && |s| == 32 && s[..8] == EncU64(h, c.cir) && s[8..12] == EncU32(h, c.cburst) && s[12..20] == EncU64(h, c.pir)
      && s[20..24] == EncU32(h, c.pburst) && s[24..28] == EncU32(h, c.unit) && s[28..32] == EncU32(h, c.kind)
  {
    SixInARow(EncU64(h, c.cir), EncU32(h, c.cburst), EncU64(h, c.pir), EncU32(h, c.pburst), EncU32(h, c.unit), EncU32(h, c.kind), EmitMeter(h, c));
  }

  lemma SixInARow(u: seq<byte>, v: seq<byte>, w: seq<byte>, x: seq<byte>, y: seq<byte>, z: seq<byte>, s: seq<byte>)
    requires |u| == 8 && |v| == 4 && |w| == 8 && |x| == 4 && |y| == 4 && |z| == 4 && s == u + v + w + x + y + z
    ensures s[..8] == u && s[8..12] == v && s[12..20] == w && s[20..24] == x && s[24..28] == y && s[28..32] == z
  {
  }

  lemma CounterBack(h: Host, c: Config, rest: seq<byte>)
    requires c.Counter?
    ensures |EmitCounter(h, c)| == 20 && RetrieveCounter(h, EmitCounter(h, c) + rest) == Some((c, 20))
  {
    var s := EmitCounter(h, c) + rest;
    var s2 := EncU64(h, c.packets) + rest;
    var s1 := EncU64(h, c.bytes) + s2;
    CounterBytes(EncU32(h, c.valid), EncU64(h, c.bytes), EncU64(h, c.packets), rest, s);
    U32Back(h, c.valid, s1);
    U64Back(h, c.bytes, s2);
    U64Back(h, c.packets, rest);
  }

  lemma CounterBytes(a: seq<byte>, b: seq<byte>, c: seq<byte>, rest: seq<byte>, s: seq<byte>)
    requires |a| == 4 && |b| == 8 && |c| == 8 && s == a + b + c + rest
    ensures s == a + (b + (c + rest)) && s[4..] == b + (c + rest) && s[12..] == c + rest
  {
  }

  lemma MeterBack(h: Host, c: Config, rest: seq<byte>)
    requires c.Meter?
    ensures |EmitMeter(h, c)| == 32 && RetrieveMeter(h, EmitMeter(h, c) + rest) == Some((c, 32))
  {
    var u, v, w := EncU64(h, c.cir), EncU32(h, c.cburst), EncU64(h, c.pir);
    var x, y, z := EncU32(h, c.pburst), EncU32(h, c.unit), EncU32(h, c.kind);
    MeterBytes(u, v, w, x, y, z, rest, EmitMeter(h, c) + rest);
    U64Back(h, c.cir, v + (w + (x + (y + (z + rest)))));
    U32Back(h, c.cburst, w + (x + (y + (z + rest))));
    U64Back(h, c.pir, x + (y + (z + rest)));
    U32Back(h, c.pburst, y + (z + rest));
    U32Back(h, c.unit, z + rest);
    U32Back(h, c.kind, rest);
  }

  lemma MeterBytes(u: seq<byte>, v: seq<byte>, w: seq<byte>, x: seq<byte>, y: seq<byte>, z: seq<byte>, rest: seq<byte>, s: seq<byte>)
    requires |u| == 8 && |v| == 4 && |w| == 8 && |x| == 4 && |y| == 4 && |z| == 4
    requires s == u + v + w + x + y + z + rest
    ensures s == u + (v + (w + (x + (y + (z + rest)))))
    ensures s[8..] == v + (w + (x + (y + (z + rest)))) && s[12..] == w + (x + (y + (z + rest)))
    ensures s[20..] == x + (y + (z + rest)) && s[24..] == y + (z + rest) && s[28..] == z + rest
  {
    assert s[8..] == v + (w + (x + (y + (z + rest))));
    assert s[12..] == s[8..][4..] && s[20..] == s[12..][8..] && s[24..] == s[20..][4..] && s[28..] == s[24..][4..];
  }

  /** register_std_direct_res registers functions that agree. */
  lemma StandardFnsAreLawful(h: Host, sizeOf: nat)
    ensures CounterFns(h, sizeOf).Lawful() && MeterFns(h, sizeOf).Lawful()
  {
    var k, m := CounterFns(h, sizeOf), MeterFns(h, sizeOf);
    forall c: Config, rest: seq<byte> ensures k.LawAt(c, rest) {
      if k.accepts(c) { CounterBack(h, c, rest); }
    }
    forall c: Config, rest: seq<byte> ensures m.LawAt(c, rest) {
      if m.accepts(c) { MeterBack(h, c, rest); }
    }
  }

  function LawfulFns(): (k: ResFns)
    ensures k.Lawful()
  {
    StandardFnsAreLawful(LawfulHost(), 0);
    CounterFns(LawfulHost(), 0)
  }

  type ResCodec = k: ResFns | k.Lawful() ghost witness LawfulFns()

  /** The host and the functions registered for each resource type. */
  datatype Registry = Registry(host: Host, types: map<nat, ResCodec>)

  lemma LawOf(k: ResCodec, c: Config, rest: seq<byte>)
    requires k.accepts(c)
    ensures k.msgSize(c) == |k.emit(c)| < 0x1_0000_0000
    ensures k.retrieve(k.emit(c) + rest) == Some((c, |k.emit(c)|))
  {
    assert k.LawAt(c, rest);
  }

  // ------------------------------------------------------- lists on the wire

  datatype One = One(resId: u32, config: Config)

  /** PI_GET_TYPE_ID. */
  function TypeOf(resId: u32): nat {
    resId / 0x100_0000
  }

  /** Every configuration is of a registered type and fit for its functions. */
  predicate Registered(reg: Registry, cs: seq<One>) {
    cs == [] || (Fits(reg, cs[0]) && Registered(reg, cs[1..]))
  }

  predicate Fits(reg: Registry, c: One) {
    TypeOf(c.resId) in reg.types && reg.types[TypeOf(c.resId)].accepts(c.config)
  }

  function CodecOf(reg: Registry, c: One): ResCodec
    requires TypeOf(c.resId) in reg.types
  {
    reg.types[TypeOf(c.resId)]
  }

  /** The size as direct_res_config_size adds it up: id, size word and configuration of each. */
  function RecordsSizeOf(reg: Registry, cs: seq<One>): nat
    requires Registered(reg, cs)
  {
    if cs == [] then 0 else 8 + CodecOf(reg, cs[0]).msgSize(cs[0].config) + RecordsSizeOf(reg, cs[1..])
  }

  function ConfigsSize(reg: Registry, cs: seq<One>): nat
    requires Registered(reg, cs)
  {
    4 + RecordsSizeOf(reg, cs)
  }

  /** One record as emitted. */
  function EncOne(reg: Registry, c: One): (s: seq<byte>)
    requires Fits(reg, c)
    ensures |s| == 8 + CodecOf(reg, c).msgSize(c.config)
  {
    LawOf(CodecOf(reg, c), c.config, []);
    EncU32(reg.host, c.resId) + EncU32(reg.host, CodecOf(reg, c).msgSize(c.config)) + CodecOf(reg, c).emit(c.config)
  }

  predicate Sendable(reg: Registry, cs: seq<One>) {
    Registered(reg, cs) && |cs| < 0x1_0000_0000
  }

  /** The records, first to last. */
  function EncRecords(reg: Registry, cs: seq<One>): seq<byte>
    requires Registered(reg, cs)
  {
    if cs == [] then [] else EncOne(reg, cs[0]) + EncRecords(reg, cs[1..])
  }

  function EncConfigs(reg: Registry, cs: seq<One>): seq<byte>
    requires Sendable(reg, cs)
  {
    EncU32(reg.host, |cs|) + EncRecords(reg, cs)
  }

  lemma {:induction false} RecordsSize(reg: Registry, cs: seq<One>)
    requires Registered(reg, cs)
    ensures RecordsSizeOf(reg, cs) == |EncRecords(reg, cs)|
  {
    if cs != [] { RecordsSize(reg, cs[1..]); }
  }

  /** The predicted size is the number of bytes emitted. */
  lemma SizeIsExact(reg: Registry, cs: seq<One>)
    requires Sendable(reg, cs)
    ensures ConfigsSize(reg, cs) == |EncConfigs(reg, cs)|
  {
    RecordsSize(reg, cs);
  }

  /** A record: the resource id, the size of the configuration, and its bytes. */
  lemma RecordLayout(reg: Registry, c: One)
    requires Fits(reg, c)
    ensures c.resId / 0x100_0000 in reg.types
    ensures var s, config := EncOne(reg, c), reg.types[c.resId / 0x100_0000].emit(c.config);
      |config| < 0x1_0000_0000 && s[..4] == EncU32(reg.host, c.resId) && s[4..8] == EncU32(reg.host, |config|) && s[8..] == config
  {
    LawOf(CodecOf(reg, c), c.config, []);
  }

  /** A list: the number of records, and the records one behind the other, each where those before it end. */
  lemma ListLayout(reg: Registry, cs: seq<One>, i: nat)
    requires Sendable(reg, cs) && i < |cs|
    ensures EncConfigs(reg, cs)[..4] == EncU32(reg.host, |cs|)
    ensures Registered(reg, cs[..i]) && Fits(reg, cs[i])
    ensures var p := 4 + |EncRecords(reg, cs[..i])|; p <= |EncConfigs(reg, cs)| && EncOne(reg, cs[i]) <= EncConfigs(reg, cs)[p..]
  {
    RecordsAt(reg, cs, i);
    FrontAndBack(EncU32(reg.host, |cs|), EncRecords(reg, cs));
    var n := |EncRecords(reg, cs[..i])|;
    assert EncConfigs(reg, cs)[4 + n..] == EncRecords(reg, cs)[n..];
  }

  lemma {:induction false} RecordsAt(reg: Registry, cs: seq<One>, i: nat)
    requires Registered(reg, cs) && i < |cs|
    ensures Registered(reg, cs[..i]) && Fits(reg, cs[i])
    ensures var n := |EncRecords(reg, cs[..i])|; n <= |EncRecords(reg, cs)| && EncOne(reg, cs[i]) <= EncRecords(reg, cs)[n..]
    decreases |cs|
  {
    if i > 0 {
      RecordsAt(reg, cs[1..], i - 1);
      assert cs[..i][1..] == cs[1..][..i - 1] && cs[..i][0] == cs[0];
      var a, n := |EncOne(reg, cs[0])|, |EncRecords(reg, cs[1..][..i - 1])|;
      assert EncRecords(reg, cs)[a + n..] == EncRecords(reg, cs[1..])[n..];
    } else {
      assert cs[..0] == [];
    }
  }
}
