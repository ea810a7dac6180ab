/**
 Two controllers of proto/demo_grpc/simple_router_mgr.cpp talking ARP (RFC 826): the request of
 one, answered by the other, sets the waiting packets free.
 */
module ArpExchange {
  import opened Basics
  import opened ArpSpec

  /** A packet for a known hop joins the queue, and the interface of the hop's port asks for it. */
  lemma RequestIsSent(a: Router, p: Packet, hop: u32, k: nat)
    requires Sound(a) && !a.aborted && Classify(p) == Ip(hop) && hop in a.nextHops
    requires FirstWithPort(a.ifaces, a.nextHops[hop], k)
    ensures var a', i := Step(a, PacketIn(p)), a.ifaces[k];
      && Sound(a') && a'.nextHops == a.nextHops && !a'.aborted
      && hop in a'.queues && a'.queues[hop] == QueueOf(a, hop) + [p]
      && a'.log == a.log + [Control(ArpPacket(a.nextHops[hop], 1, i.mac, i.ip, BROADCAST, hop))]
  {
    StepKeepsSound(a, PacketIn(p));
    ByPortIsFirst(a.ifaces, a.nextHops[hop]);
  }

  /** Without an interface on the port the packet waits, and nobody is asked. */
  lemma NoRequest(a: Router, p: Packet, hop: u32)
    requires Sound(a) && !a.aborted && Classify(p) == Ip(hop) && hop in a.nextHops
    requires forall i :: 0 <= i < |a.ifaces| ==> a.ifaces[i].port != a.nextHops[hop]
    ensures var a' := Step(a, PacketIn(p));
      a'.log == a.log && hop in a'.queues && a'.queues[hop] == QueueOf(a, hop) + [p]
  {
    ByPortIsFirst(a.ifaces, a.nextHops[hop]);
  }

  /** The request is understood, and the first interface that has the address replies to the asker. */
  lemma ReplyIsSent(b: Router, port: u16, mac: Mac, ip: u32, hop: u32, k: nat)
    requires Sound(b) && !b.aborted && FirstWithIp(b.ifaces, hop, k)
    ensures var request, i := ArpPacket(port, 1, mac, ip, BROADCAST, hop), b.ifaces[k];
      Step(b, PacketIn(request)).log == b.log + [Control(ArpPacket(i.port, 2, i.mac, hop, mac, ip))]
  {
    ArpPacketBack(port, 1, mac, ip, BROADCAST, hop);
    ByIpIsFirst(b.ifaces, hop);
  }

  /** If no interface has it, nothing happens. */
  lemma NoReply(b: Router, port: u16, mac: Mac, ip: u32, hop: u32)
    requires Sound(b) && forall i :: 0 <= i < |b.ifaces| ==> b.ifaces[i].ip != hop
    ensures Step(b, PacketIn(ArpPacket(port, 1, mac, ip, BROADCAST, hop))) == b
  {
    ArpPacketBack(port, 1, mac, ip, BROADCAST, hop);
    ByIpIsFirst(b.ifaces, hop);
  }

  /** The reply empties the queue of the hop it comes from. */
  lemma QueueIsFlushed(a: Router, port: u16, mac: Mac, hop: u32, hwDst: Mac, dst: u32)
    requires Sound(a) && !a.aborted && hop in a.queues
    ensures AllLong(a.queues[hop])
    ensures var a' := Step(a, PacketIn(ArpPacket(port, 2, mac, hop, hwDst, dst)));
      && QueueOf(a', hop) == [] && (forall h :: h != hop ==> QueueOf(a', h) == QueueOf(a, h))
      && a'.log == a.log + Flushed(a.queues[hop], hop, a.nextHops[hop], mac)
  {
    WaitingIsLong(a.queues[hop], hop);
    ArpPacketBack(port, 2, mac, hop, hwDst, dst);
  }

  /**
   The whole exchange. A packet comes in at controller a for a known hop; the request it sends
   reaches controller b, which has the hop's address; the reply comes back. Then nothing waits
   for the hop any more, and all that waited, this packet last, has gone out on the hop's port to
   the MAC address of b's interface.
   */
  lemma ExchangeDelivers(a: Router, b: Router, p: Packet, hop: u32, ka: nat, kb: nat)
    requires Sound(a) && !a.aborted && Classify(p) == Ip(hop) && hop in a.nextHops
    requires FirstWithPort(a.ifaces, a.nextHops[hop], ka)
    requires Sound(b) && !b.aborted && FirstWithIp(b.ifaces, hop, kb)
    ensures var ia, ib := a.ifaces[ka], b.ifaces[kb];
      var request := ArpPacket(a.nextHops[hop], 1, ia.mac, ia.ip, BROADCAST, hop);
      var reply := ArpPacket(ib.port, 2, ib.mac, hop, ia.mac, ia.ip);
      var a1, b1 := Step(a, PacketIn(p)), Step(b, PacketIn(request));
      && Sound(a1) && a1.log == a.log + [Control(request)] && b1.log == b.log + [Control(reply)]
      && AllLong(QueueOf(a, hop) + [p])
      && var a2 := Step(a1, PacketIn(reply));
        && QueueOf(a2, hop) == [] && (forall h :: h != hop ==> QueueOf(a2, h) == QueueOf(a1, h))
        && a2.log == a1.log + Flushed(QueueOf(a, hop) + [p], hop, a.nextHops[hop], ib.mac)
  {
    var ia, ib := a.ifaces[ka], b.ifaces[kb];
    RequestIsSent(a, p, hop, ka);
    ReplyIsSent(b, a.nextHops[hop], ia.mac, ia.ip, hop, kb);
    QueueIsFlushed(Step(a, PacketIn(p)), ib.port, ib.mac, hop, ia.mac, ia.ip);
  }

  // ---------------------------------------------- everything asked and answered

  /** The interfaces added, in order, and the port last given to a hop. */
  function IfacesOf(es: seq<Event>): seq<Iface> {
    if es == [] then []
    else IfacesOf(es[..|es| - 1]) + if es[|es| - 1].AddIface? then [es[|es| - 1].iface] else []
  }

  function PortOf(es: seq<Event>, hop: u32): Option<u16> {
    if es == [] then None
    else
      var last := es[|es| - 1];
      if last.AddRoute? && last.hop == hop then Some(last.port) else PortOf(es[..|es| - 1], hop)
  }

  /** What a packet that comes in after es makes the controller say. */
  function Spoken(es: seq<Event>, m: Msg): seq<Packet> {
    match m
    case Ignored => []
    case Ip(dst) =>
      var port := PortOf(es, dst);
      if port.None? then []
      else
        var i := ByPort(IfacesOf(es), port.value);
        if i.None? then [] else [ArpPacket(port.value, 1, i.value.mac, i.value.ip, [0xff, 0xff, 0xff, 0xff, 0xff, 0xff], dst)]
    case Arp(opcode, hwSrc, src, dst) =>
      var i := ByIp(IfacesOf(es), dst);
      if opcode != 1 || i.None? then [] else [ArpPacket(i.value.port, 2, i.value.mac, i.value.ip, hwSrc, src)]
  }

  function AllSpoken(es: seq<Event>): seq<Packet> {
    if es == [] then []
    else
      var before, e := es[..|es| - 1], es[|es| - 1];
      AllSpoken(before) + if e.PacketIn? then Spoken(before, Classify(e.bytes)) else []
  }

  /** The requests and replies of a log. */
  function Controls(log: seq<Out>): seq<Packet> {
    if log == [] then []
    else Controls(log[..|log| - 1]) + if log[|log| - 1].Control? then [log[|log| - 1].bytes] else []
  }

  lemma {:induction false} ControlsConcat(a: seq<Out>, b: seq<Out>)
    ensures Controls(a + b) == Controls(a) + Controls(b)
    decreases |b|
  {
    if b == [] {
      assert a + b == a;
    } else {
      assert (a + b)[..|a + b| - 1] == a + b[..|b| - 1];
      ControlsConcat(a, b[..|b| - 1]);
    }
  }

  lemma {:induction false} FlushedIsSilent(q: seq<Packet>, hop: u32, port: u16, mac: Mac)
    requires AllLong(q)
    ensures Controls(Flushed(q, hop, port, mac)) == []
    decreases |q|
  {
    if q != [] {
      var first := [Data(Rewritten(q[0], port, mac), hop, q[0])];
      FlushedIsSilent(q[1..], hop, port, mac);
      ControlsConcat(first, Flushed(q[1..], hop, port, mac));
      assert first[..0] == [];
    }
  }

  lemma OneControl(c: Packet)
    ensures Controls([Control(c)]) == [c]
  {
    assert [Control(c)][..0] == [];
  }

  /** The router knows the interfaces and the ports. */
  ghost predicate Knows(r: Router, es: seq<Event>) {
    r.ifaces == IfacesOf(es) && forall hop: u32 :: PortOf(es, hop) == if hop in r.nextHops then Some(r.nextHops[hop]) else None
  }

  lemma HandleSpeaks(r: Router, es: seq<Event>, p: Packet, m: Msg)
    requires Sound(r) && Knows(r, es)
    ensures Controls(Handle(r, p, m).log) == Controls(r.log) + Spoken(es, m)
  {
    match m
    case Ignored =>
    case Ip(dst) =>
      if dst in r.nextHops {
        assert PortOf(es, dst) == Some(r.nextHops[dst]);
        SaysOne(r.log, RequestFor(r.ifaces, r.nextHops[dst], dst));
      }
    case Arp(opcode, hwSrc, src, dst) =>
      if opcode == 1 {
        SaysOne(r.log, ReplyTo(r.ifaces, hwSrc, src, dst));
      } else if opcode == 2 && src in r.queues {
        WaitingIsLong(r.queues[src], src);
        ControlsConcat(r.log, Flushed(r.queues[src], src, r.nextHops[src], hwSrc));
        FlushedIsSilent(r.queues[src], src, r.nextHops[src], hwSrc);
      }
  }

  lemma SaysOne(log: seq<Out>, out: seq<Out>)
    requires |out| <= 1 && (out != [] ==> out[0].Control?)
    ensures Controls(log + out) == Controls(log) + if out == [] then [] else [out[0].bytes]
  {
    ControlsConcat(log, out);
    if out != [] {
      assert out == [Control(out[0].bytes)];
      OneControl(out[0].bytes);
    }
  }

  lemma KnowsMore(r: Router, es: seq<Event>, e: Event)
    requires Sound(r) && !r.aborted && Knows(r, es)
    ensures Knows(Step(r, e), es + [e])
  {
    assert (es + [e])[..|es|] == es;
  }

  /**
   Over every run without a strange ARP packet, the controller's requests and replies are exactly
   these, in order: a request for each packet to a hop with a known port, from the first interface
   on that port; and a reply to each request for an address, from the first interface that has it.
   */
  lemma {:induction false} SpeaksWhenAsked(es: seq<Event>)
    requires forall i :: 0 <= i < |es| ==> !StrangeArp(es[i])
    ensures Knows(After(es), es) && Controls(After(es).log) == AllSpoken(es)
    decreases |es|
  {
    AbortsIff(es);
    if es != [] {
      var before, e := es[..|es| - 1], es[|es| - 1];
      AbortsIff(before);
      assert es == before + [e];
      SpeaksWhenAsked(before);
      KnowsMore(After(before), before, e);
      if e.PacketIn? { HandleSpeaks(After(before), before, e.bytes, Classify(e.bytes)); }
    }
  }
}
