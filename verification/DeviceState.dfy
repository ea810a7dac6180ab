/**
 DeviceState of proto/server/pi_server.cpp in its own form: Connection objects whose election
 id is changed in place and an ordered set of references to them. Every method is one locked
 section and is proved to do to the abstract device what DeviceSpec says.
 */
module DeviceState {
  import opened Basics
  import opened WideInt
  import opened DeviceSpec

  class Connection {
    const stream: Stream
    var id: U128

    constructor (stream: Stream, id: U128)
      ensures this.stream == stream && this.id == id
    {
      this.stream, this.id := stream, id;
    }

    function Abs(): Entry
      reads this
    {
      Entry(stream, id)
    }
  }

  function Entries(cs: seq<Connection>): (es: seq<Entry>)
    reads cs
    ensures |es| == |cs| && forall i :: 0 <= i < |cs| ==> es[i] == cs[i].Abs()
  {
    seq(|cs|, i requires 0 <= i < |cs| reads cs => cs[i].Abs())
  }

  /** Erasing the holder of c's id leaves c out of the set, whether or not c was that holder. */
  lemma OnlyHolderErased(cs: seq<Connection>, at: nat, c: Connection)
    requires Descending(Entries(cs)) && at < |cs| && cs[at].id == c.id
    ensures c !in cs[..at] + cs[at + 1..]
  {
    var es := Entries(cs);
    forall i | 0 <= i < |cs| && i != at ensures cs[i] != c {
      assert if i < at then es[i].id.Greater(es[at].id) else es[at].id.Greater(es[i].id);
    }
  }

  /** Every stream handler owns one Connection, so streams tell connections apart. */
  ghost predicate UniqueRefs(cs: seq<Connection>) {
    forall x, y :: x in cs && y in cs && x.stream == y.stream ==> x == y
  }

  lemma InsertedEntries(cs: seq<Connection>, c: Connection, k: nat)
    requires k <= |cs|
    ensures Entries(cs[..k] + [c] + cs[k..]) == Entries(cs)[..k] + [c.Abs()] + Entries(cs)[k..]
  {
  }

  lemma InsertedRefs(cs: seq<Connection>, c: Connection)
    requires Descending(Entries(cs)) && UniqueRefs(cs) && Find(Entries(cs), c.id).None?
    requires forall x :: x in cs && x.stream == c.stream ==> x == c
    ensures var k := Position(Entries(cs), c.id);
            var cs' := cs[..k] + [c] + cs[k..];
            && Entries(cs') == Insert(Entries(cs), c.Abs()) && Descending(Entries(cs'))
            && UniqueRefs(cs') && c in cs'
  {
    InsertKeepsOrder(Entries(cs), c.Abs());
    var k := Position(Entries(cs), c.id);
    InsertedEntries(cs, c, k);
    InsertedUnique(cs, c, k);
  }

  lemma InsertedUnique(cs: seq<Connection>, c: Connection, k: nat)
    requires k <= |cs| && UniqueRefs(cs) && forall x :: x in cs && x.stream == c.stream ==> x == c
    ensures UniqueRefs(cs[..k] + [c] + cs[k..]) && c in cs[..k] + [c] + cs[k..]
  {
    assert (cs[..k] + [c] + cs[k..])[k] == c;
    assert forall x :: x in cs[..k] + [c] + cs[k..] ==> x == c || x in cs;
  }

  lemma ErasedRefs(cs: seq<Connection>, at: nat)
    requires Descending(Entries(cs)) && UniqueRefs(cs) && at < |cs|
    ensures var cs' := cs[..at] + cs[at + 1..];
            Entries(cs') == Remove(Entries(cs), at) && Descending(Entries(cs')) && UniqueRefs(cs')
  {
    RemoveKeepsOrder(Entries(cs), at);
    assert Entries(cs[..at] + cs[at + 1..]) == Remove(Entries(cs), at);
  }

  class DeviceState {
    var connections: seq<Connection>
    var log: seq<Sent>
    var mgr: bool
    var handled: seq<Handled>
    var pktIn: u64
    var pktOut: u64

    constructor ()
      ensures Valid() && Abs() == Device([], [], false, [], 0, 0)
    {
      connections, log, mgr, handled, pktIn, pktOut := [], [], false, [], 0, 0;
    }

    function Abs(): Device
      reads this, connections
    {
      Device(Entries(connections), log, mgr, handled, pktIn, pktOut)
    }

    ghost predicate Valid()
      reads this, connections
    {
      Descending(Entries(connections)) && UniqueRefs(connections)
    }

    ghost predicate Owns(c: Connection)
      reads this
    {
      forall x :: x in connections && x.stream == c.stream ==> x == c
    }

    method NotifyOne(c: Connection)
      requires connections != [] && Owns(c)
      modifies this`log
      ensures log == old(log) + [Notice(Entries(connections), c.Abs())]
    {
      var isMaster := c == connections[0];
      log := log + [Sent(c.stream, Arbitration(connections[0].id, isMaster))];
    }

    method NotifyAll()
      requires Valid()
      modifies this`log
      ensures log == DeviceSpec.NotifyAll(Entries(connections), old(log))
      ensures Valid() && Entries(connections) == old(Entries(connections))
    {
      var n := 0;
      while n < |connections|
        invariant 0 <= n <= |connections|
        invariant log == NotifyFirst(Entries(connections), old(log), n)
      {
        NotifyOne(connections[n]);
        n := n + 1;
      }
    }

    /** set::insert of an element that is not there yet; tells whether it came first. */
    method InsertNew(c: Connection) returns (first: bool)
      requires Valid() && Owns(c) && c !in connections && Find(Entries(connections), c.id).None?
      modifies this`connections
      ensures Entries(connections) == Insert(old(Entries(connections)), c.Abs())
      ensures first == (Position(old(Entries(connections)), c.id) == 0)
      ensures Valid() && c in connections
    {
      var k := Position(Entries(connections), c.id);
      InsertedRefs(connections, c);
      connections := connections[..k] + [c] + connections[k..];
      first := k == 0;
    }

    /** set::erase. */
    method Erase(at: nat)
      requires Valid() && at < |connections|
      modifies this`connections
      ensures connections == old(connections[..at] + connections[at + 1..])
      ensures Entries(connections) == Remove(old(Entries(connections)), at)
      ensures Valid() && old(connections[at]) !in connections
    {
      ErasedRefs(connections, at);
      OnlyHolderErased(connections, at, connections[at]);
      connections := connections[..at] + connections[at + 1..];
    }

    /**
     Into the set, unless the id is taken, and the news to everyone if the connection has become
     or stopped being the master, else to itself. A new connection was not master before.
     */
    method InsertAndNotify(c: Connection, wasMaster: bool) returns (status: Status)
      requires Valid() && Owns(c) && c !in connections
      modifies this`connections, this`log
      ensures var rest := old(Entries(connections));
              if Find(rest, c.id).Some? then
                Entries(connections) == rest && log == old(log) && status == InvalidArgument
              else
                var es := Insert(rest, c.Abs());
                && Entries(connections) == es && status == Ok
                && log == if (Position(rest, c.id) == 0) != wasMaster
                          then DeviceSpec.NotifyAll(es, old(log)) else old(log) + [Notice(es, c.Abs())]
      ensures Valid()
      ensures unchanged(`mgr) && unchanged(`handled) && unchanged(`pktIn) && unchanged(`pktOut)
    {
      if Find(Entries(connections), c.id).Some? {
        return InvalidArgument;
      }
      var isMaster := InsertNew(c);
      if isMaster != wasMaster {
        NotifyAll();
      } else {
        NotifyOne(c);
      }
      status := Ok;
    }

    method AddConnection(c: Connection) returns (status: Status)
      requires Valid() && Owns(c) && c !in connections
      modifies this
      ensures (Abs(), status) == Add(old(Abs()), c.Abs())
      ensures Valid()
    {
      if |connections| >= MAX_CONNECTIONS {
        return ResourceExhausted;
      }
      status := InsertAndNotify(c, false);
    }

    /** The first half of a re-arbitration: out of the set, then renamed. */
    method EraseAndRename(c: Connection, newId: U128) returns (wasMaster: bool)
      requires Valid() && Owns(c) && Find(Entries(connections), c.id).Some?
      modifies this`connections, c
      ensures var at := Find(old(Entries(connections)), old(c.id)).value;
              Entries(connections) == Remove(old(Entries(connections)), at) && wasMaster == (at == 0)
      ensures Valid() && Owns(c) && c !in connections && c.id == newId
      ensures unchanged(`mgr) && unchanged(`handled) && unchanged(`pktIn) && unchanged(`pktOut)
    {
      var at := Find(Entries(connections), c.id).value;
      OnlyHolderErased(connections, at, c);
      Erase(at);
      ghost var rest := Entries(connections);
      c.id := newId;
      assert Entries(connections) == rest;
      wasMaster := at == 0;
    }

    /** The source asserts that the connection is found. */
    method UpdateConnection(c: Connection, newId: U128) returns (status: Status)
      requires Valid() && Owns(c)
      requires c.id == newId || Find(Entries(connections), c.id).Some?
      modifies this, c
      ensures (Abs(), status) == Update(old(Abs()), old(c.Abs()), newId)
      ensures Valid() && c.id == newId
    {
      if c.id == newId {
        return Ok;
      }
      var wasMaster := EraseAndRename(c, newId);
      status := InsertAndNotify(c, wasMaster);
    }

    /** The source asserts that the connection is found. */
    method CleanupConnection(c: Connection)
      requires Valid() && Find(Entries(connections), c.id).Some?
      modifies this`connections, this`log
      ensures Abs() == Cleanup(old(Abs()), c.Abs())
      ensures Valid()
    {
      var at := Find(Entries(connections), c.id).value;
      Erase(at);
      if at == 0 {
        NotifyAll();
      }
    }

    method ProcessStreamMessageRequest(c: Connection, isPacket: bool)
      requires Valid() && Owns(c)
      modifies this
      ensures Abs() == Process(old(Abs()), c.stream, isPacket)
      ensures Valid()
    {
      if connections == [] || c != connections[0] {
        return;
      }
      if !mgr {
        return;
      }
      handled := handled + [FromStream(c.stream, isPacket)];
      if isPacket {
        pktOut := Wrap64(pktOut + 1);
      }
    }

    method SendPacketIn(delivered: bool)
      requires Valid()
      modifies this
      ensures Abs() == DeviceSpec.SendPacketIn(old(Abs()), delivered)
      ensures Valid()
    {
      if connections == [] {
        return;
      }
      log := log + [Sent(connections[0].stream, PacketIn)];
      if delivered {
        pktIn := Wrap64(pktIn + 1);
      }
    }
  }
}
