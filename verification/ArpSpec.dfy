/**
 The packet handling of the demo router's controller (proto/demo_grpc/simple_router_mgr.cpp) as
 a state machine: IP packets for a known next hop wait in a queue until an ARP reply tells the
 hop's MAC address, then they are rewritten and sent.
 */
module ArpSpec {
  import opened Basics
  import opened BigEndian

  type Packet = seq<byte>
  type Mac = m: seq<byte> | |m| == 6 witness [0, 0, 0, 0, 0, 0]

  // ----------------------------------------------------------------- headers

  const ZEROS: seq<byte> := [0, 0, 0, 0, 0, 0, 0, 0]
  const NO_ARP_ENTRY: u16 := 0
  const ARP_MSG: u16 := 1
  const DATA_PKT: u16 := 2

  function CpuHeader(reason: u16, port: u16): (s: seq<byte>)
    ensures |s| == 12
  {
    ZEROS + Bytes(2, reason) + Bytes(2, port)
  }

  function EthHeader(dst: Mac, src: Mac, ethertype: u16): (s: seq<byte>)
    ensures |s| == 14
  {
    dst + src + Bytes(2, ethertype)
  }

  function ArpHeader(opcode: u16, hwSrc: Mac, src: u32, hwDst: Mac, dst: u32): (s: seq<byte>)
    ensures |s| == 28
  {
    ArpPreamble() + Bytes(2, opcode) + hwSrc + Bytes(4, src) + hwDst + Bytes(4, dst)
  }

  /** Ethernet and IPv4, with address lengths 6 and 4. */
  function ArpPreamble(): (s: seq<byte>)
    ensures |s| == 6
  {
    Bytes(2, 1) + Bytes(2, 0x800) + [6, 4]
  }

  function ArpPacket(port: u16, opcode: u16, hwSrc: Mac, src: u32, hwDst: Mac, dst: u32): Packet {
    CpuHeader(ARP_MSG, port) + EthHeader(hwDst, hwSrc, 0x0806) + ArpHeader(opcode, hwSrc, src, hwDst, dst)
  }

  /** What PacketHandler makes of a packet. */
  datatype Msg = Ignored | Ip(dst: u32) | Arp(opcode: u16, hwSrc: Mac, src: u32, dst: u32)

  function Word(p: Packet, at: nat): u16
    requires at + 2 <= |p|
  {
    BytesOfNumber(p[at..at + 2]);
    Pow256Values();
    Number(p[at..at + 2])
  }

  function Address(p: Packet, at: nat): u32
    requires at + 4 <= |p|
  {
    BytesOfNumber(p[at..at + 4]);
    Pow256Values();
    Number(p[at..at + 4])
  }

  lemma Pow256Values()
    ensures Pow256(2) == 0x1_0000 && Pow256(4) == 0x1_0000_0000
  {
    assert Pow256(1) == 256 && Pow256(2) == 256 * Pow256(1) && Pow256(3) == 256 * Pow256(2) && Pow256(4) == 256 * Pow256(3);
  }

  /** The length checks come before each header is looked at. */
  function Classify(p: Packet): Msg {
    if |p| < 12 || p[..8] != ZEROS || |p| < 26 then Ignored
    else if Word(p, 8) == NO_ARP_ENTRY then
      if |p| < 46 then Ignored else Ip(Address(p, 42))
    else if Word(p, 8) == ARP_MSG then
      if |p| < 54 then Ignored else Arp(Word(p, 32), p[34..40], Address(p, 40), Address(p, 50))
    else Ignored
  }

  /** The in-place rewrite before a packet goes back to the switch. */
  function Rewritten(p: Packet, port: u16, mac: Mac): Packet
    requires |p| >= 18
  {
    CpuHeader(DATA_PKT, port) + mac + p[18..]
  }

  /** Only the CPU header and the destination MAC change. */
  lemma RewriteTouchesOnly(p: Packet, port: u16, mac: Mac)
    requires |p| >= 18
    ensures var r := Rewritten(p, port, mac);
      && |r| == |p| && r[..8] == [0, 0, 0, 0, 0, 0, 0, 0] && Word(r, 8) == 2 && Word(r, 10) == port
      && r[12..18] == mac && r[18..] == p[18..]
  {
    var r := Rewritten(p, port, mac);
    Pow256Values();
    NumberOfBytes(2, DATA_PKT);
    NumberOfBytes(2, port);
    assert r[8..10] == Bytes(2, DATA_PKT) && r[10..12] == Bytes(2, port);
  }

  /** A rewritten packet coming back is not queued again. */
  lemma RewrittenIsIgnored(p: Packet, port: u16, mac: Mac)
    requires |p| >= 18
    ensures Classify(Rewritten(p, port, mac)) == Ignored
  {
    RewriteTouchesOnly(p, port, mac);
  }

  /** An IP packet as the switch sends it up for want of an ARP entry. */
  function IpPacket(port: u16, eth: seq<byte>, noise: seq<byte>, dst: u32, payload: seq<byte>): Packet {
    CpuHeader(NO_ARP_ENTRY, port) + eth + noise + Bytes(4, dst) + payload
  }

  lemma FiveFields(a: seq<byte>, b: seq<byte>, c: seq<byte>, d: seq<byte>, e: seq<byte>, s: seq<byte>)
    requires |a| == 12 && |b| == 14 && |c| == 16 && |d| == 4 && s == a + b + c + d + e
    ensures s[..8] == a[..8] && s[8..10] == a[8..10] && s[42..46] == d
  {
  }

  lemma CpuFields(reason: u16, port: u16)
    ensures var h := CpuHeader(reason, port); h[..8] == ZEROS && h[8..10] == Bytes(2, reason) && h[10..12] == Bytes(2, port)
  {
  }

  /** Such a packet is recognised, whatever else it carries. */
  lemma IpPacketBack(port: u16, eth: seq<byte>, noise: seq<byte>, dst: u32, payload: seq<byte>)
    requires |eth| == 14 && |noise| == 16
    ensures Classify(IpPacket(port, eth, noise, dst, payload)) == Ip(dst)
  {
    CpuFields(NO_ARP_ENTRY, port);
    FiveFields(CpuHeader(NO_ARP_ENTRY, port), eth, noise, Bytes(4, dst), payload, IpPacket(port, eth, noise, dst, payload));
    Pow256Values();
    NumberOfBytes(2, NO_ARP_ENTRY);
    NumberOfBytes(4, dst);
  }

  /** And nothing else is. */
  lemma OnlyIpPackets(p: Packet, dst: u32) returns (port: u16, eth: seq<byte>, noise: seq<byte>, payload: seq<byte>)
    requires Classify(p) == Ip(dst)
    ensures |eth| == 14 && |noise| == 16 && p == IpPacket(port, eth, noise, dst, payload)
  {
    port, eth, noise, payload := Word(p, 10), p[12..26], p[26..42], p[46..];
    BytesOfNumber(p[8..10]);
    BytesOfNumber(p[10..12]);
    BytesOfNumber(p[42..46]);
    IpPieces(p);
  }

  lemma IpPieces(p: seq<byte>)
    requires |p| >= 46
    ensures p == p[..8] + p[8..10] + p[10..12] + p[12..26] + p[26..42] + p[42..46] + p[46..]
  {
    assert p[..12] == p[..8] + p[8..10] + p[10..12];
    assert p == p[..12] + p[12..26] + p[26..42] + p[42..46] + p[46..];
  }

  /** Packets are classified by their first ten bytes and their length. */
  lemma ClassifyIff(p: Packet)
    ensures Classify(p).Ip? <==> |p| >= 46 && p[..10] == [0, 0, 0, 0, 0, 0, 0, 0, 0, 0]
    ensures Classify(p).Arp? <==> |p| >= 54 && p[..10] == [0, 0, 0, 0, 0, 0, 0, 0, 0, 1]
  {
    if |p| >= 26 {
      BytesOfNumber(p[8..10]);
      TwoBytes(Word(p, 8));
      assert p[..10] == p[..8] + p[8..10];
      assert p[..8] == p[..10][..8] && p[8..10] == p[..10][8..];
      if p[..10] == [0, 0, 0, 0, 0, 0, 0, 0, 0, 0] { assert p[8..10] == [0, 0]; }
      if p[..10] == [0, 0, 0, 0, 0, 0, 0, 0, 0, 1] { assert p[8..10] == [0, 1]; }
      TwoZeros();
    }
  }

  lemma TwoZeros()
    ensures Number([0, 0]) == 0 && Number([0, 1]) == 1
  {
    assert [0, 0][..1] == [0] && [0, 1][..1] == [0] && [0][..0] == [];
  }

  /** What is read out of an ARP packet, and where. */
  lemma ArpReads(p: Packet)
    requires Classify(p).Arp?
    ensures var m := Classify(p);
      && m.opcode == Number(p[32..34]) && m.hwSrc == p[34..40] && m.src == Number(p[40..44]) && m.dst == Number(p[50..54])
  {
  }

  /** An ARP packet of the controller is understood by a peer running the same handler. */
  lemma ArpPacketBack(port: u16, opcode: u16, hwSrc: Mac, src: u32, hwDst: Mac, dst: u32)
    ensures Classify(ArpPacket(port, opcode, hwSrc, src, hwDst, dst)) == Arp(opcode, hwSrc, src, dst)
  {
    ArpPlaces(port, opcode, hwSrc, src, hwDst, dst);
    Pow256Values();
    NumberOfBytes(2, ARP_MSG);
    NumberOfBytes(2, opcode);
    NumberOfBytes(4, src);
    NumberOfBytes(4, dst);
  }

  /** Where everything is in it, from the egress port to the addresses on both levels. */
  lemma ArpFields(port: u16, opcode: u16, hwSrc: Mac, src: u32, hwDst: Mac, dst: u32)
    ensures var p := ArpPacket(port, opcode, hwSrc, src, hwDst, dst);
      && |p| == 54 && p[..8] == [0, 0, 0, 0, 0, 0, 0, 0] && p[8..10] == [0, 1] && p[10..12] == Bytes(2, port)
      && p[12..18] == hwDst && p[18..24] == hwSrc && p[24..26] == [8, 6]
      && p[26..32] == [0, 1, 8, 0, 6, 4] && p[32..34] == Bytes(2, opcode)
      && p[34..40] == hwSrc && p[40..44] == Bytes(4, src) && p[44..50] == hwDst && p[50..54] == Bytes(4, dst)
  {
    ArpPlaces(port, opcode, hwSrc, src, hwDst, dst);
    FixedBytes();
  }

  lemma FixedBytes()
    ensures Bytes(2, ARP_MSG) == [0, 1] && Bytes(2, 0x0806) == [8, 6] && ArpPreamble() == [0, 1, 8, 0, 6, 4]
  {
    TwoBytes(ARP_MSG);
    TwoBytes(0x0806);
    TwoBytes(1);
    TwoBytes(0x800);
  }

  lemma TwoBytes(v: nat)
    requires v < 0x1_0000
    ensures Bytes(2, v) == [v / 256, v % 256]
  {
    assert Bytes(1, v / 256) == Bytes(0, v / 256 / 256) + [v / 256 % 256];
  }

  lemma ArpPlaces(port: u16, opcode: u16, hwSrc: Mac, src: u32, hwDst: Mac, dst: u32)
    ensures var p := ArpPacket(port, opcode, hwSrc, src, hwDst, dst);
      && |p| == 54 && p[..8] == ZEROS && p[8..10] == Bytes(2, ARP_MSG) && p[10..12] == Bytes(2, port)
      && p[12..18] == hwDst && p[18..24] == hwSrc && p[24..26] == Bytes(2, 0x0806)
      && p[26..32] == ArpPreamble() && p[32..34] == Bytes(2, opcode)
      && p[34..40] == hwSrc && p[40..44] == Bytes(4, src) && p[44..50] == hwDst && p[50..54] == Bytes(4, dst)
  {
    var cpu, eth, arp := CpuHeader(ARP_MSG, port), EthHeader(hwDst, hwSrc, 0x0806), ArpHeader(opcode, hwSrc, src, hwDst, dst);
    CpuFields(ARP_MSG, port);
    ThreeHeaders(cpu, eth, arp, ArpPacket(port, opcode, hwSrc, src, hwDst, dst));
    SixFields(ArpPreamble(), Bytes(2, opcode), hwSrc, Bytes(4, src), hwDst, Bytes(4, dst), arp);
    EthFields(hwDst, hwSrc, Bytes(2, 0x0806), eth);
  }

  lemma EthFields(dst: Mac, src: Mac, ethertype: seq<byte>, eth: seq<byte>)
    requires |ethertype| == 2 && eth == dst + src + ethertype
    ensures eth[..6] == dst && eth[6..12] == src && eth[12..14] == ethertype
  {
  }

  lemma ThreeHeaders(cpu: seq<byte>, eth: seq<byte>, arp: seq<byte>, p: Packet)
    requires |cpu| == 12 && |eth| == 14 && |arp| == 28 && p == cpu + eth + arp
    ensures p[..8] == cpu[..8] && p[8..10] == cpu[8..10] && p[10..12] == cpu[10..12]
    ensures p[12..18] == eth[..6] && p[18..24] == eth[6..12] && p[24..26] == eth[12..14]
    ensures p[26..32] == arp[..6] && p[32..34] == arp[6..8] && p[34..40] == arp[8..14] && p[40..44] == arp[14..18]
    ensures p[44..50] == arp[18..24] && p[50..54] == arp[24..28]
  {
  }

  lemma SixFields(a: seq<byte>, b: seq<byte>, c: seq<byte>, d: seq<byte>, e: seq<byte>, f: seq<byte>, s: seq<byte>)
    requires |a| == 6 && |b| == 2 && |c| == 6 && |d| == 4 && |e| == 6 && |f| == 4 && s == a + b + c + d + e + f
    ensures s[..6] == a && s[6..8] == b && s[8..14] == c && s[14..18] == d && s[18..24] == e && s[24..28] == f
  {
  }

  // ------------------------------------------------------------------- state

  datatype Iface = Iface(port: u16, ip: u32, mac: Mac)

  /** What the controller sends; a reinjected packet is logged with what it was and for which hop. */
  datatype Out = Control(bytes: Packet) | Data(bytes: Packet, hop: u32, was: Packet)

  datatype Router = Router(nextHops: map<u32, u16>, queues: map<u32, seq<Packet>>, ifaces: seq<Iface>, log: seq<Out>, aborted: bool)

  datatype Event = PacketIn(bytes: Packet) | AddRoute(hop: u32, port: u16) | AddIface(iface: Iface)

  function QueueOf(r: Router, hop: u32): seq<Packet> {
    if hop in r.queues then r.queues[hop] else []
  }

  function ByPort(ifaces: seq<Iface>, port: u16): Option<Iface> {
    if ifaces == [] then None else if ifaces[0].port == port then Some(ifaces[0]) else ByPort(ifaces[1..], port)
  }

  function ByIp(ifaces: seq<Iface>, ip: u32): Option<Iface> {
    if ifaces == [] then None else if ifaces[0].ip == ip then Some(ifaces[0]) else ByIp(ifaces[1..], ip)
  }

  /** The k-th interface is the first with the address, or the first with the port. */
  ghost predicate FirstWithIp(ifaces: seq<Iface>, ip: u32, k: nat) {
    k < |ifaces| && ifaces[k].ip == ip && forall j :: 0 <= j < k ==> ifaces[j].ip != ip
  }

  ghost predicate FirstWithPort(ifaces: seq<Iface>, port: u16, k: nat) {
    k < |ifaces| && ifaces[k].port == port && forall j :: 0 <= j < k ==> ifaces[j].port != port
  }

  /** The search by address looks at every interface, and finds the first that has it. */
  lemma {:induction false} ByIpIsFirst(ifaces: seq<Iface>, ip: u32)
    ensures ByIp(ifaces, ip).None? <==> forall i :: 0 <= i < |ifaces| ==> ifaces[i].ip != ip
    ensures forall k: nat :: FirstWithIp(ifaces, ip, k) ==> ByIp(ifaces, ip) == Some(ifaces[k])
  {
    if ifaces != [] {
      ByIpIsFirst(ifaces[1..], ip);
      forall k: nat | FirstWithIp(ifaces, ip, k) ensures ByIp(ifaces, ip) == Some(ifaces[k]) {
        if k > 0 {
          assert ifaces[0].ip != ip;
          assert FirstWithIp(ifaces[1..], ip, k - 1);
        }
      }
      if ByIp(ifaces, ip).None? {
        forall i | 0 <= i < |ifaces| ensures ifaces[i].ip != ip {
          if i > 0 { assert ifaces[1..][i - 1].ip != ip; }
        }
      }
    }
  }

  lemma {:induction false} ByPortIsFirst(ifaces: seq<Iface>, port: u16)
    ensures ByPort(ifaces, port).None? <==> forall i :: 0 <= i < |ifaces| ==> ifaces[i].port != port
    ensures forall k: nat :: FirstWithPort(ifaces, port, k) ==> ByPort(ifaces, port) == Some(ifaces[k])
  {
    if ifaces != [] {
      ByPortIsFirst(ifaces[1..], port);
      forall k: nat | FirstWithPort(ifaces, port, k) ensures ByPort(ifaces, port) == Some(ifaces[k]) {
        if k > 0 {
          assert ifaces[0].port != port;
          assert FirstWithPort(ifaces[1..], port, k - 1);
        }
      }
      if ByPort(ifaces, port).None? {
        forall i | 0 <= i < |ifaces| ensures ifaces[i].port != port {
          if i > 0 { assert ifaces[1..][i - 1].port != port; }
        }
      }
    }
  }

  const BROADCAST: Mac := [0xff, 0xff, 0xff, 0xff, 0xff, 0xff]

  /** The request send_arp_request sends, if an interface has the port. */
  function RequestFor(ifaces: seq<Iface>, port: u16, dst: u32): seq<Out> {
    match ByPort(ifaces, port)
    case None => []
    case Some(i) => [Control(ArpPacket(port, 1, i.mac, i.ip, BROADCAST, dst))]
  }

  /** The reply handle_arp_request sends, if an interface has the address asked for. */
  function ReplyTo(ifaces: seq<Iface>, hwSrc: Mac, src: u32, dst: u32): seq<Out> {
    match ByIp(ifaces, dst)
    case None => []
    case Some(i) => [Control(ArpPacket(i.port, 2, i.mac, i.ip, hwSrc, src))]
  }

  /** The packets of a queue, rewritten, first to last. */
  function Flushed(q: seq<Packet>, hop: u32, port: u16, mac: Mac): seq<Out>
    requires AllLong(q)
  {
    if q == [] then [] else [Data(Rewritten(q[0], port, mac), hop, q[0])] + Flushed(q[1..], hop, port, mac)
  }

  predicate AllLong(q: seq<Packet>) {
    q == [] || (|q[0]| >= 18 && AllLong(q[1..]))
  }

  /** Every waiting packet is an IP packet for the hop it waits for. */
  predicate AllFor(q: seq<Packet>, hop: u32) {
    q == [] || (Classify(q[0]) == Ip(hop) && AllFor(q[1..], hop))
  }

  /** What holds between any two events. */
  ghost predicate Sound(r: Router) {
    Waiting(r.nextHops, r.queues)
  }

  ghost predicate Waiting(nextHops: map<u32, u16>, queues: map<u32, seq<Packet>>) {
    forall hop :: hop in queues ==> hop in nextHops && queues[hop] != [] && AllFor(queues[hop], hop)
  }

  lemma {:induction false} WaitingIsLong(q: seq<Packet>, hop: u32)
    requires AllFor(q, hop)
    ensures AllLong(q)
  {
    if q != [] { WaitingIsLong(q[1..], hop); }
  }

  // ------------------------------------------------------------------- steps

  function HandleIp(r: Router, p: Packet, dst: u32): Router {
    if dst !in r.nextHops then r
    else r.(queues := r.queues[dst := QueueOf(r, dst) + [p]], log := r.log + RequestFor(r.ifaces, r.nextHops[dst], dst))
  }

  ghost function HandleReply(r: Router, hwSrc: Mac, src: u32): Router
    requires Sound(r)
  {
    if src !in r.queues then r
    else
      WaitingIsLong(r.queues[src], src);
      r.(queues := r.queues - {src}, log := r.log + Flushed(r.queues[src], src, r.nextHops[src], hwSrc))
  }

  ghost function Handle(r: Router, p: Packet, m: Msg): Router
    requires Sound(r)
  {
    match m
    case Ignored => r
    case Ip(dst) => HandleIp(r, p, dst)
    case Arp(opcode, hwSrc, src, dst) =>
      if opcode == 1 then r.(log := r.log + ReplyTo(r.ifaces, hwSrc, src, dst))
      else if opcode == 2 then HandleReply(r, hwSrc, src)
      else r.(aborted := true)
  }

  /** One event; after a failed assertion nothing happens any more. */
  ghost function Step(r: Router, e: Event): Router
    requires Sound(r)
  {
    if r.aborted then r
    else
      match e
      case PacketIn(p) => Handle(r, p, Classify(p))
      case AddRoute(hop, port) => r.(nextHops := r.nextHops[hop := port])
      case AddIface(iface) => r.(ifaces := r.ifaces + [iface])
  }

  lemma {:induction false} AllForSnoc(q: seq<Packet>, p: Packet, hop: u32)
    requires AllFor(q, hop) && Classify(p) == Ip(hop)
    ensures AllFor(q + [p], hop)
  {
    if q != [] {
      assert (q + [p])[1..] == q[1..] + [p];
      AllForSnoc(q[1..], p, hop);
    }
  }

  /** Queue keys stay known hops, and queued packets IP packets for them. */
  lemma StepKeepsSound(r: Router, e: Event)
    requires Sound(r)
    ensures Sound(Step(r, e))
  {
    if !r.aborted && e.PacketIn? && Classify(e.bytes).Ip? {
      IpKeepsSound(r, e.bytes, Classify(e.bytes).dst);
    }
  }

  lemma IpKeepsSound(r: Router, p: Packet, dst: u32)
    requires Sound(r) && Classify(p) == Ip(dst)
    ensures dst in r.nextHops ==> Waiting(r.nextHops, r.queues[dst := QueueOf(r, dst) + [p]])
  {
    if dst in r.nextHops {
      AllForSnoc(QueueOf(r, dst), p, dst);
    }
  }

  // -------------------------------------------------------------------- runs

  const START := Router(map[], map[], [], [], false)

  ghost function After(events: seq<Event>): (r: Router)
    ensures Sound(r)
    decreases |events|
  {
    if events == [] then START
    else
      var before := After(events[..|events| - 1]);
      StepKeepsSound(before, events[|events| - 1]);
      Step(before, events[|events| - 1])
  }

  /** The packet the event makes wait for a hop: an IP packet for a hop that is known by then. */
  ghost function AcceptedNow(r: Router, e: Event, hop: u32): seq<Packet> {
    if !r.aborted && e.PacketIn? && Classify(e.bytes) == Ip(hop) && hop in r.nextHops then [e.bytes] else []
  }

  /** All packets accepted for a hop over a run, in order. */
  ghost function Accepted(events: seq<Event>, hop: u32): seq<Packet>
    decreases |events|
  {
    if events == [] then []
    else
      var before := events[..|events| - 1];
      Accepted(before, hop) + AcceptedNow(After(before), events[|events| - 1], hop)
  }

  /** The packets reinjected for a hop, as they were when accepted. */
  function Reinjected(log: seq<Out>, hop: u32): seq<Packet> {
    if log == [] then []
    else (if log[0].Data? && log[0].hop == hop then [log[0].was] else []) + Reinjected(log[1..], hop)
  }

  lemma {:induction false} ReinjectedConcat(a: seq<Out>, b: seq<Out>, hop: u32)
    ensures Reinjected(a + b, hop) == Reinjected(a, hop) + Reinjected(b, hop)
    decreases |a|
  {
    if a == [] {
      assert a + b == b;
    } else {
      assert (a + b)[1..] == a[1..] + b;
      ReinjectedConcat(a[1..], b, hop);
    }
  }

  lemma {:induction false} FlushReinjects(q: seq<Packet>, key: u32, port: u16, mac: Mac, hop: u32)
    requires AllLong(q)
    ensures Reinjected(Flushed(q, key, port, mac), hop) == if key == hop then q else []
    decreases |q|
  {
    if q != [] {
      FlushReinjects(q[1..], key, port, mac, hop);
      assert Flushed(q, key, port, mac)[1..] == Flushed(q[1..], key, port, mac);
    }
  }

  /** A control message reinjects nothing. */
  lemma ControlReinjectsNothing(a: seq<Out>, hop: u32)
    requires |a| <= 1 && (a != [] ==> a[0].Control?)
    ensures Reinjected(a, hop) == []
  {
    if a != [] { assert a[1..] == []; }
  }

  /** Conservation in one step. */
  ghost predicate Conserves(r: Router, r': Router, hop: u32, accepted: seq<Packet>) {
    Reinjected(r'.log, hop) + QueueOf(r', hop) == Reinjected(r.log, hop) + QueueOf(r, hop) + accepted
  }

  lemma LoggingConserves(r: Router, out: seq<Out>, hop: u32)
    requires |out| <= 1 && (out != [] ==> out[0].Control?)
    ensures Reinjected(r.log + out, hop) == Reinjected(r.log, hop)
  {
    ReinjectedConcat(r.log, out, hop);
    ControlReinjectsNothing(out, hop);
  }

  lemma IpConserves(r: Router, p: Packet, dst: u32, hop: u32)
    ensures Conserves(r, HandleIp(r, p, dst), hop, if dst == hop && hop in r.nextHops then [p] else [])
  {
    if dst in r.nextHops {
      LoggingConserves(r, RequestFor(r.ifaces, r.nextHops[dst], dst), hop);
    }
  }

  lemma ReplyConserves(r: Router, hwSrc: Mac, src: u32, hop: u32)
    requires Sound(r)
    ensures Conserves(r, HandleReply(r, hwSrc, src), hop, [])
  {
    if src in r.queues {
      WaitingIsLong(r.queues[src], src);
      var out := Flushed(r.queues[src], src, r.nextHops[src], hwSrc);
      ReinjectedConcat(r.log, out, hop);
      FlushReinjects(r.queues[src], src, r.nextHops[src], hwSrc, hop);
    }
  }

  lemma HandleConserves(r: Router, p: Packet, m: Msg, hop: u32)
    requires Sound(r)
    ensures Conserves(r, Handle(r, p, m), hop, if m == Ip(hop) && hop in r.nextHops then [p] else [])
  {
    match m {
      case Ignored =>
      case Ip(dst) => IpConserves(r, p, dst, hop);
      case Arp(opcode, hwSrc, src, dst) =>
        if opcode == 2 {
          ReplyConserves(r, hwSrc, src, hop);
        } else {
          LoggingConserves(r, ReplyTo(r.ifaces, hwSrc, src, dst), hop);
        }
    }
  }

  lemma StepConserves(r: Router, e: Event, hop: u32)
    requires Sound(r)
    ensures Conserves(r, Step(r, e), hop, AcceptedNow(r, e, hop))
  {
    if !r.aborted && e.PacketIn? {
      HandleConserves(r, e.bytes, Classify(e.bytes), hop);
    }
  }

  /**
   Over every run and for every next hop: the packets accepted for it are those reinjected
   followed by those still queued, in order and each once.
   */
  lemma {:induction false} Conservation(events: seq<Event>, hop: u32)
    ensures Accepted(events, hop) == Reinjected(After(events).log, hop) + QueueOf(After(events), hop)
    decreases |events|
  {
    if events != [] {
      var before := events[..|events| - 1];
      Conservation(before, hop);
      StepConserves(After(before), events[|events| - 1], hop);
    }
  }

  /**
   A reinjection goes back to a reply: the packet that waited is an IP packet for the hop, the reply
   came from the hop, and what was sent is the packet with the hop's port and the reply's MAC.
   */
  ghost predicate Answers(r: Router, m: Msg, o: Out) {
    o.Data? ==>
      && m.Arp? && m.opcode == 2 && m.src == o.hop
      && o.hop in r.nextHops && Classify(o.was) == Ip(o.hop)
      && o.bytes == Rewritten(o.was, r.nextHops[o.hop], m.hwSrc)
  }

  lemma {:induction false} FlushAnswers(r: Router, m: Msg, q: seq<Packet>, k: nat)
    requires m.Arp? && m.opcode == 2 && m.src in r.nextHops && AllFor(q, m.src) && AllLong(q)
    requires k < |Flushed(q, m.src, r.nextHops[m.src], m.hwSrc)|
    ensures Answers(r, m, Flushed(q, m.src, r.nextHops[m.src], m.hwSrc)[k])
    decreases k
  {
    if k > 0 { FlushAnswers(r, m, q[1..], k - 1); }
  }

  /** One event only adds to the log, and every reinjection it adds answers it. */
  lemma HandleAnswers(r: Router, p: Packet, m: Msg, i: nat)
    requires Sound(r) && |r.log| <= i < |Handle(r, p, m).log|
    ensures Answers(r, m, Handle(r, p, m).log[i])
  {
    var k := i - |r.log|;
    match m {
      case Ignored =>
      case Ip(dst) =>
      case Arp(opcode, hwSrc, src, dst) =>
        if opcode == 2 && src in r.queues {
          WaitingIsLong(r.queues[src], src);
          FlushAnswers(r, m, r.queues[src], k);
        }
    }
  }

  lemma LogGrows(r: Router, e: Event)
    requires Sound(r)
    ensures r.log <= Step(r, e).log
  {
  }

  /** Event j put entry i into the log, and the entry answers it. */
  ghost predicate CausedBy(events: seq<Event>, i: nat, j: nat)
    requires j < |events| && i < |After(events).log|
  {
    var before, after := After(events[..j]), After(events[..j + 1]);
    && |before.log| <= i < |after.log|
    && (After(events).log[i].Data? ==> events[j].PacketIn? && Answers(before, Classify(events[j].bytes), After(events).log[i]))
  }

  /**
   Over every run each entry of the log was put there by one event, and each reinjected packet is
   the rewrite of an IP packet for its hop with the port the hop had then and the MAC address of
   the reply that came from it: only the CPU header and the destination MAC have changed.
   */
  lemma {:induction false} ReinjectionAnswersAReply(events: seq<Event>, i: nat) returns (j: nat)
    requires i < |After(events).log|
    ensures j < |events| && CausedBy(events, i, j)
    decreases |events|
  {
    var before, e := events[..|events| - 1], events[|events| - 1];
    var r := After(before);
    LogGrows(r, e);
    if i < |r.log| {
      j := ReinjectionAnswersAReply(before, i);
      assert before[..j] == events[..j] && before[..j + 1] == events[..j + 1];
    } else {
      j := |events| - 1;
      assert events[..j + 1] == events;
      if !r.aborted && e.PacketIn? {
        HandleAnswers(r, e.bytes, Classify(e.bytes), i);
      }
    }
  }

  /** An ARP packet that is neither request nor reply. */
  predicate StrangeArp(e: Event) {
    e.PacketIn? && Classify(e.bytes).Arp? && Classify(e.bytes).opcode != 1 && Classify(e.bytes).opcode != 2
  }

  /** The assertion in handle_arp fails exactly on runs that bring such a packet. */
  lemma {:induction false} AbortsIff(events: seq<Event>)
    ensures After(events).aborted <==> exists i :: 0 <= i < |events| && StrangeArp(events[i])
    decreases |events|
  {
    if events != [] {
      var before, e := events[..|events| - 1], events[|events| - 1];
      AbortsIff(before);
      AbortsInOne(After(before), e);
      assert forall i :: 0 <= i < |before| ==> before[i] == events[i];
    }
  }

  lemma AbortsInOne(r: Router, e: Event)
    requires Sound(r)
    ensures Step(r, e).aborted <==> r.aborted || StrangeArp(e)
  {
  }
}
