/** SimpleRouterMgr of proto/demo_grpc/simple_router_mgr.cpp, as far as it handles packets. */
module ArpRouter {
  import opened Basics
  import opened Wire
  import opened ArpSpec

  function BytesOf(log: seq<Out>): seq<Packet> {
    if log == [] then [] else [log[0].bytes] + BytesOf(log[1..])
  }

  lemma {:induction false} BytesOfConcat(a: seq<Out>, b: seq<Out>)
    ensures BytesOf(a + b) == BytesOf(a) + BytesOf(b)
    decreases |a|
  {
    if a == [] {
      assert a + b == b;
    } else {
      assert (a + b)[1..] == a[1..] + b;
      BytesOfConcat(a[1..], b);
    }
  }

  /** set_cpu_header and the memcpy of the MAC, over the packet's own bytes. */
  method RewriteInPlace(buf: array<byte>, port: u16, mac: Mac)
    requires buf.Length >= 18
    modifies buf
    ensures buf[..] == Rewritten(old(buf[..]), port, mac)
  {
    ghost var before := buf[..];
    Put(buf, 0, CpuHeader(DATA_PKT, port));
    assert buf[12..] == before[12..];
    Put(buf, 12, mac);
    assert buf[18..] == before[12..][6..];
    assert buf[..] == buf[..18] + buf[18..];
  }

  class SimpleRouterMgr {
    var nextHops: map<u32, u16>
    var packetQueues: map<u32, seq<Packet>>
    var ifaces: seq<Iface>
    var sent: seq<Packet>
    var aborted: bool
    ghost var log: seq<Out>

    ghost function Abs(): Router
      reads this
    {
      Router(nextHops, packetQueues, ifaces, log, aborted)
    }

    /** Between two events: the machine's state is sound, and the log tells what was sent. */
    ghost predicate Valid()
      reads this
    {
      Sound(Abs()) && sent == BytesOf(log)
    }

    constructor ()
      ensures Valid() && Abs() == START
    {
      nextHops, packetQueues, ifaces, sent, aborted, log := map[], map[], [], [], false, [];
    }

    method SendPacketOut(o: Out)
      requires Valid()
      modifies this`sent, this`log
      ensures Valid() && log == old(log) + [o]
    {
      BytesOfConcat(log, [o]);
      sent := sent + [o.bytes];
      log := log + [o];
    }

    method SendArpRequest(port: u16, dst: u32)
      requires Valid()
      modifies this`sent, this`log
      ensures Valid() && log == old(log) + RequestFor(ifaces, port, dst)
      ensures (forall i :: 0 <= i < |ifaces| ==> ifaces[i].port != port) ==> log == old(log)
      ensures forall k: nat :: FirstWithPort(ifaces, port, k) ==>
        log == old(log) + [Control(ArpPacket(port, 1, ifaces[k].mac, ifaces[k].ip, BROADCAST, dst))]
    {
      ByPortIsFirst(ifaces, port);
      var todo := ifaces;
      while todo != []
        invariant ByPort(ifaces, port) == ByPort(todo, port) && Valid() && log == old(log)
      {
        if todo[0].port == port {
          SendPacketOut(Control(ArpPacket(port, 1, todo[0].mac, todo[0].ip, BROADCAST, dst)));
          return;
        }
        todo := todo[1..];
      }
    }

    method HandleArpRequest(hwSrc: Mac, src: u32, dst: u32)
      requires Valid()
      modifies this`sent, this`log
      ensures Valid() && log == old(log) + ReplyTo(ifaces, hwSrc, src, dst)
      ensures (forall i :: 0 <= i < |ifaces| ==> ifaces[i].ip != dst) ==> log == old(log)
      ensures forall k: nat :: FirstWithIp(ifaces, dst, k) ==>
        log == old(log) + [Control(ArpPacket(ifaces[k].port, 2, ifaces[k].mac, dst, hwSrc, src))]
    {
      ByIpIsFirst(ifaces, dst);
      var todo := ifaces;
      while todo != []
        invariant ByIp(ifaces, dst) == ByIp(todo, dst) && Valid() && log == old(log)
      {
        if todo[0].ip == dst {
          SendPacketOut(Control(ArpPacket(todo[0].port, 2, todo[0].mac, todo[0].ip, hwSrc, src)));
          return;
        }
        todo := todo[1..];
      }
    }

    method HandleIpPacket(p: Packet, dst: u32)
      requires Valid() && Classify(p) == Ip(dst)
      modifies this
      ensures Valid() && Abs() == HandleIp(old(Abs()), p, dst)
    {
      if dst !in nextHops {
        return;
      }
      Enqueue(p, dst);
      SendArpRequest(nextHops[dst], dst);
    }

    /** The queue is created if there is none. */
    method Enqueue(p: Packet, dst: u32)
      requires Valid() && Classify(p) == Ip(dst) && dst in nextHops
      modifies this`packetQueues
      ensures Valid() && packetQueues == old(packetQueues)[dst := QueueOf(old(Abs()), dst) + [p]]
    {
      IpKeepsSound(Abs(), p, dst);
      var queue := if dst in packetQueues then packetQueues[dst] else [];
      packetQueues := packetQueues[dst := queue + [p]];
    }

    /** The packets waiting for the hop are rewritten and sent one by one, then the queue is erased. */
    method HandleArpReply(hwSrc: Mac, src: u32)
      requires Valid()
      modifies this
      ensures Valid() && Abs() == HandleReply(old(Abs()), hwSrc, src)
    {
      if src !in packetQueues {
        return;
      }
      WaitingIsLong(packetQueues[src], src);
      FlushQueue(packetQueues[src], src, nextHops[src], hwSrc);
      packetQueues := packetQueues - {src};
    }

    method FlushQueue(queue: seq<Packet>, hop: u32, port: u16, mac: Mac)
      requires Valid() && AllLong(queue)
      modifies this`sent, this`log
      ensures Valid() && log == old(log) + Flushed(queue, hop, port, mac)
    {
      var todo := queue;
      while todo != []
        invariant AllLong(todo) && Valid()
        invariant log + Flushed(todo, hop, port, mac) == old(log) + Flushed(queue, hop, port, mac)
      {
        var p := todo[0];
        var buf := new byte[|p|](i requires 0 <= i < |p| => p[i]);
        assert buf[..] == p;
        RewriteInPlace(buf, port, mac);
        NextFlushed(log, todo, hop, port, mac);
        SendPacketOut(Data(buf[..], hop, p));
        todo := todo[1..];
      }
      assert log + [] == log;
    }

    /** PacketHandler, from the length checks to the dispatch. */
    method HandlePacket(p: Packet)
      requires Valid() && !aborted
      modifies this
      ensures Valid() && Abs() == Step(old(Abs()), PacketIn(p))
    {
      if |p| < 12 || p[..8] != ZEROS || |p| < 26 {
        return;
      }
      var reason := Word(p, 8);
      if reason == NO_ARP_ENTRY {
        if |p| >= 46 {
          HandleIpPacket(p, Address(p, 42));
        }
      } else if reason == ARP_MSG {
        if |p| >= 54 {
          HandleArp(Word(p, 32), p[34..40], Address(p, 40), Address(p, 50), p);
        }
      }
    }

    method HandleArp(opcode: u16, hwSrc: Mac, src: u32, dst: u32, ghost p: Packet)
      requires Valid()
      modifies this
      ensures Valid() && Abs() == Handle(old(Abs()), p, Arp(opcode, hwSrc, src, dst))
    {
      if opcode == 1 {
        HandleArpRequest(hwSrc, src, dst);
      } else if opcode == 2 {
        HandleArpReply(hwSrc, src);
      } else {
        aborted := true;
      }
    }

    /** The controller-state half of add_route_. */
    method AddRoute(hop: u32, port: u16)
      requires Valid() && !aborted
      modifies this`nextHops
      ensures Valid() && Abs() == Step(old(Abs()), Event.AddRoute(hop, port))
    {
      nextHops := nextHops[hop := port];
    }

    method AddIface(iface: Iface)
      requires Valid() && !aborted
      modifies this`ifaces
      ensures Valid() && Abs() == Step(old(Abs()), Event.AddIface(iface))
    {
      ifaces := ifaces + [iface];
    }
  }

  lemma NextFlushed(log: seq<Out>, todo: seq<Packet>, hop: u32, port: u16, mac: Mac)
    requires todo != [] && AllLong(todo)
    ensures log + Flushed(todo, hop, port, mac) ==
            (log + [Data(Rewritten(todo[0], port, mac), hop, todo[0])]) + Flushed(todo[1..], hop, port, mac)
  {
  }

  /** Every event of a run handled by the code leaves it where the machine is. */
  method RunEvents(events: seq<Event>) returns (mgr: SimpleRouterMgr)
    ensures fresh(mgr) && mgr.Valid() && mgr.Abs() == After(events)
  {
    mgr := new SimpleRouterMgr();
    var i := 0;
    assert events[..0] == [];
    while i < |events|
      invariant 0 <= i <= |events| && fresh(mgr) && mgr.Valid() && mgr.Abs() == After(events[..i])
    {
      assert events[..i + 1][..i] == events[..i] && events[..i + 1][i] == events[i];
      if !mgr.aborted {
        match events[i] {
          case PacketIn(p) => mgr.HandlePacket(p);
          case AddRoute(hop, port) => mgr.AddRoute(hop, port);
          case AddIface(iface) => mgr.AddIface(iface);
        }
      }
      i := i + 1;
    }
    assert events[..|events|] == events;
  }
}
