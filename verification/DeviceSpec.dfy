/**
 One device's connection set as a value: what each locked method of DeviceState
 (proto/server/pi_server.cpp) does to the ordered set and to the messages written.
 */
module DeviceSpec {
  import opened Basics
  import opened WideInt

  const MAX_CONNECTIONS := 16

  type Stream = nat

  /** A connection: the stream it was made for and its current election id. */
  datatype Entry = Entry(stream: Stream, id: U128)

  datatype Msg =
    | Arbitration(masterId: U128, isMaster: bool)
    | PacketIn

  datatype Sent = Sent(stream: Stream, msg: Msg)

  datatype Status = Ok | ResourceExhausted | InvalidArgument

  /** Requests handed to the device manager. */
  datatype Handled =
    | FromStream(stream: Stream, isPacket: bool)
    | FromRpc(handler: nat)

  datatype Device = Device(
    conns: seq<Entry>,
    log: seq<Sent>,
    mgr: bool,
    handled: seq<Handled>,
    pktIn: u64,
    pktOut: u64)

  // ------------------------------------------------------------ ordered set

  predicate Descending(es: seq<Entry>) {
    forall i, j :: 0 <= i < j < |es| ==> es[i].id.Greater(es[j].id)
  }

  predicate Held(es: seq<Entry>, id: U128) {
    exists i :: 0 <= i < |es| && es[i].id == id
  }

  /** No stream has two connections. */
  ghost predicate StreamsUnique(es: seq<Entry>) {
    forall x, y :: x in es && y in es && x.stream == y.stream ==> x == y
  }

  /** lower_bound under the comparator: how many leading elements come before id. */
  function Position(es: seq<Entry>, id: U128): (k: nat)
    ensures k <= |es|
    ensures forall i :: 0 <= i < k ==> es[i].id.Greater(id)
    ensures k < |es| ==> !es[k].id.Greater(id)
  {
    if es == [] || !es[0].id.Greater(id) then 0 else 1 + Position(es[1..], id)
  }

  /** set::find, which looks a connection up by its election id alone. */
  function Find(es: seq<Entry>, id: U128): (r: Option<nat>)
    ensures r.Some? ==> r.value < |es| && es[r.value].id == id
    ensures Descending(es) ==> (r.Some? <==> Held(es, id))
  {
    var k := Position(es, id);
    if k < |es| && es[k].id == id then Some(k) else None
  }

  function Insert(es: seq<Entry>, e: Entry): seq<Entry> {
    var k := Position(es, e.id);
    es[..k] + [e] + es[k..]
  }

  function Remove(es: seq<Entry>, k: nat): seq<Entry>
    requires k < |es|
  {
    es[..k] + es[k + 1..]
  }

  lemma InsertKeepsOrder(es: seq<Entry>, e: Entry)
    requires Descending(es) && Find(es, e.id).None?
    ensures Descending(Insert(es, e))
    ensures forall x :: x in Insert(es, e) <==> x == e || x in es
    ensures Position(es, e.id) == 0 <==> Insert(es, e)[0] == e
    ensures Position(es, e.id) != 0 ==> Insert(es, e)[0] == es[0]
  {
    var k := Position(es, e.id);
    if k < |es| {
      assert es[k].id != e.id;
    }
    InsertedBetween(es, e, k);
    InsertedAmong(es, e, k);
  }

  lemma InsertedBetween(es: seq<Entry>, e: Entry, k: nat)
    requires Descending(es) && k <= |es| && (k < |es| ==> e.id.Greater(es[k].id))
    requires forall i :: 0 <= i < k ==> es[i].id.Greater(e.id)
    ensures Descending(es[..k] + [e] + es[k..])
  {
    var r := es[..k] + [e] + es[k..];
    forall i, j | 0 <= i < j < |r| ensures r[i].id.Greater(r[j].id) {
      if j == k {
        assert r[i] == es[i];
      } else if i == k {
        assert r[j] == es[j - 1];
        assert k == j - 1 || es[k].id.Greater(es[j - 1].id);
      }
    }
  }

  lemma InsertedAmong(es: seq<Entry>, e: Entry, k: nat)
    requires k <= |es|
    ensures forall x :: x in es[..k] + [e] + es[k..] <==> x == e || x in es
  {
    var r := es[..k] + [e] + es[k..];
    assert e == r[k];
    forall x | x in es ensures x in r {
      var i :| 0 <= i < |es| && es[i] == x;
      assert r[if i < k then i else i + 1] == x;
    }
  }

  lemma RemoveKeepsOrder(es: seq<Entry>, k: nat)
    requires Descending(es) && k < |es|
    ensures Descending(Remove(es, k))
    ensures forall x :: x in Remove(es, k) <==> x in es && x != es[k]
    ensures k != 0 ==> Remove(es, k)[0] == es[0]
  {
    var r := Remove(es, k);
    forall x | x in es && x != es[k] ensures x in r {
      var i :| 0 <= i < |es| && es[i] == x;
      assert r[if i < k then i else i - 1] == x;
    }
    forall x | x in r ensures x in es && x != es[k] {
      var i :| 0 <= i < |r| && r[i] == x;
      assert es[if i < k then i else i + 1] == x;
    }
  }

  // ---------------------------------------------------------- notifications

  /** The arbitration message notify_one builds for a connection. */
  function Notice(es: seq<Entry>, e: Entry): Sent
    requires es != []
  {
    Sent(e.stream, Arbitration(es[0].id, e.stream == es[0].stream))
  }

  /** The log after the first n connections have been notified. */
  function NotifyFirst(es: seq<Entry>, log: seq<Sent>, n: nat): seq<Sent>
    requires n <= |es|
  {
    if n == 0 then log else NotifyFirst(es, log, n - 1) + [Notice(es, es[n - 1])]
  }

  function NotifyAll(es: seq<Entry>, log: seq<Sent>): seq<Sent> {
    NotifyFirst(es, log, |es|)
  }

  /** The most recent arbitration message a client was sent. */
  function LastTold(log: seq<Sent>, s: Stream): (r: Option<Msg>)
    ensures r.Some? ==> r.value.Arbitration?
  {
    if log == [] then None
    else
      var last := log[|log| - 1];
      if last.stream == s && last.msg.Arbitration? then Some(last.msg)
      else LastTold(log[..|log| - 1], s)
  }

  lemma LastToldAppend(log: seq<Sent>, m: Sent, s: Stream)
    ensures LastTold(log + [m], s) ==
            if m.stream == s && m.msg.Arbitration? then Some(m.msg) else LastTold(log, s)
  {
    assert (log + [m])[..|log + [m]| - 1] == log;
  }

  lemma {:induction false} LastToldAfterNotifyFirst(es: seq<Entry>, log: seq<Sent>, n: nat, e: Entry)
    requires n <= |es| && e in es && StreamsUnique(es)
    ensures LastTold(NotifyFirst(es, log, n), e.stream) ==
            if e in es[..n] then Some(Notice(es, e).msg) else LastTold(log, e.stream)
  {
    if n > 0 {
      LastToldAfterNotifyFirst(es, log, n - 1, e);
      LastToldAppend(NotifyFirst(es, log, n - 1), Notice(es, es[n - 1]), e.stream);
      OneFurther(es, n, e);
    }
  }

  lemma OneFurther(es: seq<Entry>, n: nat, e: Entry)
    requires 0 < n <= |es| && e in es && StreamsUnique(es)
    ensures e in es[..n] <==> e in es[..n - 1] || e == es[n - 1]
    ensures e.stream == es[n - 1].stream <==> e == es[n - 1]
  {
    assert es[..n] == es[..n - 1] + [es[n - 1]];
    assert es[n - 1] in es;
  }

  /** What a client was last told about its own role is true of the set. */
  ghost predicate KnowsRole(es: seq<Entry>, log: seq<Sent>, e: Entry)
    requires es != []
  {
    var told := LastTold(log, e.stream);
    told.Some? && (told.value.isMaster <==> e.stream == es[0].stream)
  }

  ghost predicate RolesKnown(es: seq<Entry>, log: seq<Sent>) {
    forall e :: e in es ==> KnowsRole(es, log, e)
  }

  /** The election id of the master a client was last told is the current one. */
  ghost predicate MasterIdKnown(es: seq<Entry>, log: seq<Sent>) {
    forall e :: e in es ==> LastTold(log, e.stream).Some? && LastTold(log, e.stream).value.masterId == es[0].id
  }

  lemma NotifyAllTellsEveryone(es: seq<Entry>, log: seq<Sent>)
    requires StreamsUnique(es)
    ensures RolesKnown(es, NotifyAll(es, log)) && MasterIdKnown(es, NotifyAll(es, log))
  {
    forall e | e in es
      ensures LastTold(NotifyAll(es, log), e.stream) == Some(Notice(es, e).msg)
    {
      LastToldAfterNotifyFirst(es, log, |es|, e);
      assert es[..|es|] == es;
    }
  }

  lemma NotifyOneIsEnough(es: seq<Entry>, log: seq<Sent>, e: Entry)
    requires e in es
    requires forall x :: x in es && x.stream != e.stream ==> KnowsRole(es, log, x)
    ensures RolesKnown(es, log + [Notice(es, e)])
  {
    forall x | x in es ensures KnowsRole(es, log + [Notice(es, e)], x) {
      LastToldAppend(log, Notice(es, e), x.stream);
    }
  }

  // ------------------------------------------------------- the locked methods

  function Add(d: Device, e: Entry): (Device, Status) {
    if |d.conns| >= MAX_CONNECTIONS then (d, ResourceExhausted)
    else if Find(d.conns, e.id).Some? then (d, InvalidArgument)
    else
      var es := Insert(d.conns, e);
      var log := if Position(d.conns, e.id) == 0 then NotifyAll(es, d.log) else d.log + [Notice(es, e)];
      (d.(conns := es, log := log), Ok)
  }

  /**
   update_connection for a connection whose election id is e.id. On a collision the
   connection has left the set and nobody has been told.
   */
  function Update(d: Device, e: Entry, newId: U128): (Device, Status)
    requires e.id == newId || Find(d.conns, e.id).Some?
  {
    if e.id == newId then (d, Ok)
    else
      var at := Find(d.conns, e.id).value;
      var rest := Remove(d.conns, at);
      if Find(rest, newId).Some? then (d.(conns := rest), InvalidArgument)
      else
        var e' := Entry(e.stream, newId);
        var es := Insert(rest, e');
        var log := if (Position(rest, newId) == 0) != (at == 0) then NotifyAll(es, d.log) else d.log + [Notice(es, e')];
        (d.(conns := es, log := log), Ok)
  }

  function Cleanup(d: Device, e: Entry): Device
    requires Find(d.conns, e.id).Some?
  {
    var at := Find(d.conns, e.id).value;
    var rest := Remove(d.conns, at);
    d.(conns := rest, log := if at == 0 then NotifyAll(rest, d.log) else d.log)
  }

  predicate IsMaster(d: Device, s: Stream) {
    d.conns != [] && d.conns[0].stream == s
  }

  predicate IsMasterId(d: Device, id: U128) {
    d.conns != [] && d.conns[0].id == id
  }

  /** process_stream_message_request: only the master's messages go through, only packets are counted. */
  function Process(d: Device, s: Stream, isPacket: bool): Device {
    if !IsMaster(d, s) || !d.mgr then d
    else d.(handled := d.handled + [FromStream(s, isPacket)],
            pktOut := if isPacket then Wrap64(d.pktOut + 1) else d.pktOut)
  }

  /** send_stream_message for a packet-in; `delivered` is what Write on the stream returned. */
  function SendPacketIn(d: Device, delivered: bool): Device {
    if d.conns == [] then d
    else d.(log := d.log + [Sent(d.conns[0].stream, PacketIn)],
            pktIn := if delivered then Wrap64(d.pktIn + 1) else d.pktIn)
  }

  // ------------------------------------------- what the locked methods preserve

  ghost predicate Sound(d: Device) {
    Descending(d.conns) && StreamsUnique(d.conns) && RolesKnown(d.conns, d.log)
  }

  lemma FindOwn(es: seq<Entry>, e: Entry)
    requires Descending(es) && e in es
    ensures Find(es, e.id).Some? && es[Find(es, e.id).value] == e
  {
    var i :| 0 <= i < |es| && es[i] == e;
    assert Held(es, e.id);
  }

  /** A set in which the same connections are listed and the same one is first keeps its roles. */
  lemma RolesCarryOver(es: seq<Entry>, es': seq<Entry>, log: seq<Sent>, e: Entry)
    requires es != [] && es' != [] && RolesKnown(es, log)
    requires e in es && e in es' && es'[0].stream == es[0].stream
    ensures KnowsRole(es', log, e)
  {
    assert KnowsRole(es, log, e);
  }

  lemma AddKeepsSound(d: Device, e: Entry)
    requires Sound(d) && forall x :: x in d.conns ==> x.stream != e.stream
    ensures var (d', status) := Add(d, e);
            && Sound(d')
            && (forall x :: x in d'.conns <==> x in d.conns || (status.Ok? && x == e))
            && (status.ResourceExhausted? <==> |d.conns| >= MAX_CONNECTIONS)
            && (status.InvalidArgument? <==> |d.conns| < MAX_CONNECTIONS && Held(d.conns, e.id))
  {
    if |d.conns| < MAX_CONNECTIONS && Find(d.conns, e.id).None? {
      InsertKeepsOrder(d.conns, e);
      var es' := Insert(d.conns, e);
      if Position(d.conns, e.id) == 0 {
        NotifyAllTellsEveryone(es', d.log);
      } else {
        forall x | x in es' && x.stream != e.stream ensures KnowsRole(es', d.log, x) {
          RolesCarryOver(d.conns, es', d.log, x);
        }
        NotifyOneIsEnough(es', d.log, e);
      }
    }
  }

  /** Erasing a connection's own entry: what is left, and whether the new id is free there. */
  lemma OwnEntryErased(es: seq<Entry>, e: Entry, newId: U128)
    requires Descending(es) && e in es && e.id != newId
    ensures Find(es, e.id).Some?
    ensures var at := Find(es, e.id).value;
            var rest := Remove(es, at);
            && es[at] == e && Descending(rest) && (at != 0 ==> rest[0] == es[0])
            && (forall x :: x in rest <==> x in es && x != e)
            && (Find(rest, newId).Some? <==> Held(es, newId))
  {
    FindOwn(es, e);
    var at := Find(es, e.id).value;
    var rest := Remove(es, at);
    RemoveKeepsOrder(es, at);
    if Held(es, newId) {
      var i :| 0 <= i < |es| && es[i].id == newId;
      assert rest[if i < at then i else i - 1].id == newId;
    }
    if Held(rest, newId) {
      var i :| 0 <= i < |rest| && rest[i].id == newId;
      assert es[if i < at then i else i + 1].id == newId;
    }
  }

  lemma MovedStreamsUnique(es: seq<Entry>, es': seq<Entry>, e: Entry, e': Entry)
    requires StreamsUnique(es) && e in es && e.stream == e'.stream
    requires forall x :: x in es' ==> (x in es && x != e) || x == e'
    ensures StreamsUnique(es')
  {
  }

  /** The set after a re-arbitration that does not collide. */
  lemma EntryMoved(es: seq<Entry>, e: Entry, newId: U128)
    requires Descending(es) && StreamsUnique(es) && e in es && e.id != newId && !Held(es, newId)
    ensures Find(es, e.id).Some?
    ensures var at, e' := Find(es, e.id).value, Entry(e.stream, newId);
            var es' := Insert(Remove(es, at), e');
            && Find(Remove(es, at), newId).None?
            && Descending(es') && StreamsUnique(es') && |es'| == |es|
            && (forall x :: x in es' <==> (x in es && x != e) || x == e')
            && (at == 0 <==> e == es[0])
            && (Position(Remove(es, at), newId) == 0 <==> e' == es'[0])
            && (at != 0 && es'[0] != e' ==> es'[0] == es[0])
  {
    OwnEntryErased(es, e, newId);
    var at, e' := Find(es, e.id).value, Entry(e.stream, newId);
    var rest := Remove(es, at);
    InsertKeepsOrder(rest, e');
    MovedStreamsUnique(es, Insert(rest, e'), e, e');
    FirstIsSelf(es, e, at);
  }

  lemma FirstIsSelf(es: seq<Entry>, e: Entry, at: nat)
    requires Descending(es) && at < |es| && es[at] == e
    ensures at == 0 <==> e == es[0]
  {
    assert at > 0 ==> es[0].id.Greater(es[at].id);
  }

  lemma MoveKeepsRoles(es: seq<Entry>, es': seq<Entry>, log: seq<Sent>, e: Entry, e': Entry)
    requires e in es && e' in es' && e.stream == e'.stream && StreamsUnique(es')
    requires forall x :: x in es' && x != e' ==> x in es
    requires e == es[0] <==> e' == es'[0]
    requires e != es[0] ==> es'[0] == es[0]
    requires RolesKnown(es, log)
    ensures RolesKnown(es', log + [Notice(es', e')])
  {
    forall x | x in es' && x.stream != e'.stream ensures KnowsRole(es', log, x) {
      RolesCarryOver(es, es', log, x);
    }
    NotifyOneIsEnough(es', log, e');
  }

  lemma UpdateKeepsSound(d: Device, e: Entry, newId: U128)
    requires Sound(d) && e in d.conns && e.id != newId && !Held(d.conns, newId)
    ensures Find(d.conns, e.id).Some?
    ensures var (d', status) := Update(d, e, newId);
            && status.Ok? && Sound(d') && |d'.conns| == |d.conns|
            && (forall x :: x in d'.conns <==> (x in d.conns && x != e) || x == Entry(e.stream, newId))
  {
    EntryMoved(d.conns, e, newId);
    var at, e' := Find(d.conns, e.id).value, Entry(e.stream, newId);
    var rest := Remove(d.conns, at);
    var es' := Insert(rest, e');
    if (Position(rest, newId) == 0) != (at == 0) {
      NotifyAllTellsEveryone(es', d.log);
    } else {
      MoveKeepsRoles(d.conns, es', d.log, e, e');
    }
  }

  lemma CleanupKeepsSound(d: Device, e: Entry)
    requires Sound(d) && e in d.conns
    ensures Find(d.conns, e.id).Some? && Sound(Cleanup(d, e))
    ensures forall x :: x in Cleanup(d, e).conns <==> x in d.conns && x != e
  {
    FindOwn(d.conns, e);
    var at := Find(d.conns, e.id).value;
    RemoveKeepsOrder(d.conns, at);
    var rest := Remove(d.conns, at);
    if at == 0 {
      NotifyAllTellsEveryone(rest, d.log);
    } else {
      forall x | x in rest ensures KnowsRole(rest, d.log, x) {
        RolesCarryOver(d.conns, rest, d.log, x);
      }
    }
  }

  lemma PacketInKeepsSound(d: Device, delivered: bool)
    requires Sound(d)
    ensures Sound(SendPacketIn(d, delivered))
  {
    if d.conns != [] {
      var m := Sent(d.conns[0].stream, PacketIn);
      forall e | e in d.conns ensures KnowsRole(d.conns, d.log + [m], e) {
        LastToldAppend(d.log, m, e.stream);
        assert KnowsRole(d.conns, d.log, e);
      }
    }
  }

  // -------------------------------------------------- the announced master id

  /** The sitting master takes a new id and stays master while others are connected. */
  ghost predicate SilentMasterChange(d: Device, e: Entry, newId: U128) {
    && IsMaster(d, e.stream) && |d.conns| > 1
    && forall x :: x in d.conns && x.stream != e.stream ==> newId.Greater(x.id)
  }

  lemma NoticeKeepsMasterId(es: seq<Entry>, log: seq<Sent>, e: Entry)
    requires e in es
    requires forall x :: x in es && x.stream != e.stream ==>
      LastTold(log, x.stream).Some? && LastTold(log, x.stream).value.masterId == es[0].id
    ensures MasterIdKnown(es, log + [Notice(es, e)])
  {
    forall x | x in es
      ensures LastTold(log + [Notice(es, e)], x.stream).Some?
      ensures LastTold(log + [Notice(es, e)], x.stream).value.masterId == es[0].id
    {
      LastToldAppend(log, Notice(es, e), x.stream);
    }
  }

  lemma SilentChangeGoesStale(es: seq<Entry>, es': seq<Entry>, log: seq<Sent>, e: Entry, e': Entry)
    requires |es| > 1 && e == es[0] && Descending(es) && es' != [] && e' == es'[0] && e'.id != e.id
    requires StreamsUnique(es) && e'.stream == e.stream && (forall x :: x in es && x != e ==> x in es')
    requires MasterIdKnown(es, log)
    ensures !MasterIdKnown(es', log + [Notice(es', e')])
  {
    var other := es[1];
    assert es[0].id.Greater(other.id);
    assert other in es && other != e && other in es' && other.stream != e'.stream;
    LastToldAppend(log, Notice(es', e'), other.stream);
  }

  lemma OtherChangeStaysKnown(es: seq<Entry>, es': seq<Entry>, log: seq<Sent>, e: Entry, e': Entry)
    requires es != [] && e' in es' && (|es'| == 1 || es'[0] == es[0])
    requires e'.stream == e.stream && (forall x :: x in es' && x != e' ==> x in es)
    requires MasterIdKnown(es, log)
    ensures MasterIdKnown(es', log + [Notice(es', e')])
  {
    NoticeKeepsMasterId(es', log, e');
  }

  /**
   Re-arbitration and the announced master id: the others' copy goes stale exactly after
   a silent change, because then only the master itself is notified.
   */
  lemma UpdateMasterIdIff(d: Device, e: Entry, newId: U128)
    requires Sound(d) && MasterIdKnown(d.conns, d.log)
    requires e in d.conns && e.id != newId && !Held(d.conns, newId)
    ensures Find(d.conns, e.id).Some?
    ensures var d' := Update(d, e, newId).0;
            MasterIdKnown(d'.conns, d'.log) <==> !SilentMasterChange(d, e, newId)
  {
    EntryMoved(d.conns, e, newId);
    UpdateMoves(d, e, newId);
    var es, es', e' := d.conns, Update(d, e, newId).0.conns, Entry(e.stream, newId);
    SilentChangeShape(es, es', e, e');
    MovedMasterIdIff(es, es', d.log, e, e');
  }

  lemma UpdateMoves(d: Device, e: Entry, newId: U128)
    requires Descending(d.conns) && StreamsUnique(d.conns) && e in d.conns && e.id != newId && !Held(d.conns, newId)
    ensures Find(d.conns, e.id).Some?
    ensures var d', e' := Update(d, e, newId).0, Entry(e.stream, newId);
            && d'.conns == Insert(Remove(d.conns, Find(d.conns, e.id).value), e')
            && d'.conns != []
            && d'.log == if (e' == d'.conns[0]) != (e == d.conns[0]) then NotifyAll(d'.conns, d.log)
                         else d.log + [Notice(d'.conns, e')]
  {
    EntryMoved(d.conns, e, newId);
  }

  lemma MovedMasterIdIff(es: seq<Entry>, es': seq<Entry>, log: seq<Sent>, e: Entry, e': Entry)
    requires Descending(es) && StreamsUnique(es) && StreamsUnique(es') && e in es && |es'| == |es| && MasterIdKnown(es, log)
    requires e'.stream == e.stream && e'.id != es[0].id && (forall x :: x in es' <==> (x in es && x != e) || x == e')
    requires e != es[0] && es'[0] != e' ==> es'[0] == es[0]
    ensures var log' := if (e' == es'[0]) != (e == es[0]) then NotifyAll(es', log) else log + [Notice(es', e')];
            MasterIdKnown(es', log') <==> !(e == es[0] && |es| > 1 && e' == es'[0])
  {
    if (e' == es'[0]) != (e == es[0]) {
      NotifyAllTellsEveryone(es', log);
    } else if e == es[0] && |es| > 1 {
      SilentChangeGoesStale(es, es', log, e, e');
    } else {
      OtherChangeStaysKnown(es, es', log, e, e');
    }
  }

  lemma SilentChangeShape(es: seq<Entry>, es': seq<Entry>, e: Entry, e': Entry)
    requires Descending(es) && Descending(es') && StreamsUnique(es) && e in es && |es'| == |es|
    requires e'.stream == e.stream
    requires forall x :: x in es' <==> (x in es && x != e) || x == e'
    ensures (forall x :: x in es && x.stream != e.stream ==> e'.id.Greater(x.id)) <==> e' == es'[0]
    ensures e == es[0] <==> es[0].stream == e.stream
  {
    assert es[0] in es && es'[0] in es' && e' in es';
    if e' != es'[0] {
      var i :| 0 <= i < |es'| && es'[i] == e';
      assert es'[0].id.Greater(e'.id);
      assert es'[0] in es && es'[0].stream != e.stream;
    } else {
      forall x | x in es && x.stream != e.stream ensures e'.id.Greater(x.id) {
        assert x in es';
        var i :| 0 <= i < |es'| && es'[i] == x;
      }
    }
  }
}
