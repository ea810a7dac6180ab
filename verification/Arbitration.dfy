/**
 P4Runtime master arbitration as a state machine (proto/server/pi_server.cpp): any number of
 StreamChannel, Write and SetForwardingPipelineConfig handlers interleave, one event per
 locked section. Implements section 5 of the P4Runtime specification, Master-Slave
 Arbitration and Controller Replication.
 */
module Arbitration {
  import opened Basics
  import opened WideInt
  import opened DeviceSpec

  /** The Connection object a stream handler owns; `closing` once the handler has returned. */
  datatype Conn = Conn(id: U128, closing: bool)

  datatype Kind = Write | SetPipeline

  datatype Rpc =
    | Sized(kind: Kind, id: U128)   // saw a nonempty set, master check still to come
    | Passed(kind: Kind)
    | Finished

  datatype Sys = Sys(dev: Device, open: map<Stream, Conn>, rpcs: map<nat, Rpc>, crashed: bool)

  datatype Event =
    | Arbitrate(s: Stream, id: U128)
    | Close(s: Stream)
    | Clean(s: Stream)
    | Request(s: Stream, isPacket: bool)
    | PacketFromDevice(delivered: bool)
    | RpcSize(h: nat, kind: Kind, electionId: Option<U128>)
    | RpcCheck(h: nat)
    | RpcDeliver(h: nat)

  const Init := Sys(Device([], [], false, [], 0, 0), map[], map[], false)

  /** The election id compared with the master's; an absent one reads as zero. */
  function Claimed(electionId: Option<U128>): U128 {
    if electionId.Some? then electionId.value else U128(0, 0)
  }

  /** An arbitration message on a stream; the assert on `find` is modelled as a crash. */
  function ArbitrateStep(s: Sys, st: Stream, id: U128): Sys {
    if st !in s.open then
      var (d, status) := Add(s.dev, Entry(st, id));
      if status.Ok? then s.(dev := d, open := s.open[st := Conn(id, false)]) else s
    else if s.open[st].closing then s
    else
      var e := Entry(st, s.open[st].id);
      if e.id != id && Find(s.dev.conns, e.id).None? then s.(crashed := true)
      else
        var (d, status) := Update(s.dev, e, id);
        s.(dev := d, open := s.open[st := Conn(id, !status.Ok?)])
  }

  /** The destructor of ConnectionStatus. */
  function CleanStep(s: Sys, st: Stream): Sys {
    if st !in s.open || !s.open[st].closing then s
    else
      var e := Entry(st, s.open[st].id);
      if Find(s.dev.conns, e.id).None? then s.(crashed := true)
      else s.(dev := Cleanup(s.dev, e), open := s.open - {st})
  }

  function SizeStep(s: Sys, h: nat, kind: Kind, electionId: Option<U128>): Sys {
    if h in s.rpcs then s
    else if s.dev.conns != [] then s.(rpcs := s.rpcs[h := Sized(kind, Claimed(electionId))])
    else if electionId.Some? then s.(rpcs := s.rpcs[h := Finished])
    else s.(rpcs := s.rpcs[h := Passed(kind)])
  }

  function CheckStep(s: Sys, h: nat): Sys {
    if h !in s.rpcs || !s.rpcs[h].Sized? then s
    else
      var r := s.rpcs[h];
      s.(rpcs := s.rpcs[h := if IsMasterId(s.dev, r.id) then Passed(r.kind) else Finished])
  }

  /** The handler is about to call the device manager and there is one (or it makes one). */
  predicate Reaches(s: Sys, h: nat) {
    !s.crashed && h in s.rpcs && s.rpcs[h].Passed? && (s.dev.mgr || s.rpcs[h].kind.SetPipeline?)
  }

  function DeliverStep(s: Sys, h: nat): Sys {
    if h !in s.rpcs || !s.rpcs[h].Passed? then s
    else if Reaches(s, h) then
      s.(rpcs := s.rpcs[h := Finished],
         dev := s.dev.(mgr := true, handled := s.dev.handled + [FromRpc(h)]))
    else s.(rpcs := s.rpcs[h := Finished])
  }

  function Next(s: Sys, e: Event): Sys {
    if s.crashed then s
    else match e
      case Arbitrate(st, id) => ArbitrateStep(s, st, id)
      case Close(st) => if st in s.open then s.(open := s.open[st := s.open[st].(closing := true)]) else s
      case Clean(st) => CleanStep(s, st)
      case Request(st, isPacket) =>
        if st in s.open && !s.open[st].closing then s.(dev := Process(s.dev, st, isPacket)) else s
      case PacketFromDevice(delivered) => s.(dev := SendPacketIn(s.dev, delivered))
      case RpcSize(h, kind, electionId) => SizeStep(s, h, kind, electionId)
      case RpcCheck(h) => CheckStep(s, h)
      case RpcDeliver(h) => DeliverStep(s, h)
  }

  /** A run: the states passed through, one event between each two. */
  datatype Run = Run(states: seq<Sys>, events: seq<Event>) {
    ghost predicate Linked(i: nat)
      requires i < |events| < |states|
    {
      states[i + 1] == Next(states[i], events[i])
    }

    ghost predicate Valid() {
      && |states| == |events| + 1 && states[0] == Init
      && forall i :: 0 <= i < |events| ==> Linked(i)
    }
  }

  /** Any events, in any order, make a run. */
  lemma {:induction false} RunExists(events: seq<Event>) returns (r: Run)
    ensures r.Valid() && r.events == events
  {
    if events == [] {
      r := Run([Init], []);
    } else {
      var n := |events| - 1;
      var p := RunExists(events[..n]);
      r := Run(p.states + [Next(p.states[n], events[n])], events);
      forall i | 0 <= i < |r.events| ensures r.Linked(i) {
        if i < n {
          assert p.Linked(i);
        }
      }
    }
  }

  // ------------------------------------------------- the set, on every run

  ghost predicate Ordered(es: seq<Entry>) {
    Descending(es) && |es| <= MAX_CONNECTIONS
  }

  lemma StepKeepsOrdered(s: Sys, e: Event)
    requires Ordered(s.dev.conns)
    ensures Ordered(Next(s, e).dev.conns)
  {
    var es := s.dev.conns;
    match e
    case Arbitrate(st, id) =>
      if st !in s.open {
        if Find(es, id).None? { InsertKeepsOrder(es, Entry(st, id)); }
      } else {
        var at := Find(es, s.open[st].id);
        if at.Some? {
          RemoveKeepsOrder(es, at.value);
          var rest := Remove(es, at.value);
          if Find(rest, id).None? { InsertKeepsOrder(rest, Entry(st, id)); }
        }
      }
    case Clean(st) =>
      if st in s.open && Find(es, s.open[st].id).Some? {
        RemoveKeepsOrder(es, Find(es, s.open[st].id).value);
      }
    case _ =>
  }

  /**
   On every run, colliding ones included: at most 16 connections, election ids distinct
   and decreasing as 128-bit numbers, so that the first is the greatest.
   */
  lemma ConnectionsStayOrdered(r: Run, k: nat)
    requires r.Valid() && k <= |r.events|
    ensures var es := r.states[k].dev.conns;
            |es| <= MAX_CONNECTIONS &&
            (forall i, j :: 0 <= i < j < |es| ==> es[i].id.Value() > es[j].id.Value())
  {
    StaysOrdered(r, k);
    var es := r.states[k].dev.conns;
    forall i, j | 0 <= i < j < |es| ensures es[i].id.Value() > es[j].id.Value() {
      ComparisonsAreNumeric(es[i].id, es[j].id);
    }
  }

  lemma {:induction false} StaysOrdered(r: Run, k: nat)
    requires r.Valid() && k <= |r.events|
    ensures Ordered(r.states[k].dev.conns)
  {
    if k > 0 {
      StaysOrdered(r, k - 1);
      assert r.Linked(k - 1);
      StepKeepsOrdered(r.states[k - 1], r.events[k - 1]);
    }
  }

  // ------------------------------------- registration and roles, collision-free

  /** The streams holding a connection are exactly the ones in the set, with their ids. */
  ghost predicate Registered(s: Sys) {
    && (forall st :: st in s.open ==> Entry(st, s.open[st].id) in s.dev.conns)
    && (forall e :: e in s.dev.conns ==> e.stream in s.open && s.open[e.stream].id == e.id)
  }

  ghost predicate Good(s: Sys) {
    !s.crashed && |s.dev.conns| <= MAX_CONNECTIONS && Sound(s.dev) && Registered(s)
  }

  /** The stream asks for an election id that another connection holds. */
  ghost predicate Collides(s: Sys, e: Event) {
    e.Arbitrate? && e.s in s.open && !s.open[e.s].closing && s.open[e.s].id != e.id && Held(s.dev.conns, e.id)
  }

  lemma ArbitrateKeepsGood(s: Sys, st: Stream, id: U128)
    requires Good(s) && !Collides(s, Arbitrate(st, id))
    ensures Good(ArbitrateStep(s, st, id))
  {
    if st !in s.open {
      AddKeepsSound(s.dev, Entry(st, id));
    } else if !s.open[st].closing && s.open[st].id != id {
      UpdateKeepsSound(s.dev, Entry(st, s.open[st].id), id);
    }
  }

  lemma CleanKeepsGood(s: Sys, st: Stream)
    requires Good(s)
    ensures Good(CleanStep(s, st))
  {
    if st in s.open && s.open[st].closing {
      CleanupKeepsSound(s.dev, Entry(st, s.open[st].id));
    }
  }

  /** A colliding re-arbitration leaves its own connection open but out of the set. */
  lemma CollisionUnregisters(s: Sys, e: Event)
    requires Good(s) && Collides(s, e)
    ensures !Registered(Next(s, e))
    ensures Next(s, e).open == s.open[e.s := Conn(e.id, true)]
    ensures Next(s, e).dev.conns == Remove(s.dev.conns, Find(s.dev.conns, s.open[e.s].id).value)
    ensures !Next(s, e).crashed
  {
    var own := Entry(e.s, s.open[e.s].id);
    OwnEntryErased(s.dev.conns, own, e.id);
    CollidingStep(s, e.s, e.id);
    NoOtherEntry(s, e.s, e.id);
    NotRegistered(Next(s, e), e.s);
  }

  lemma NotRegistered(s: Sys, st: Stream)
    requires st in s.open && Entry(st, s.open[st].id) !in s.dev.conns
    ensures !Registered(s)
  {
  }

  lemma CollidingStep(s: Sys, st: Stream, id: U128)
    requires !s.crashed && st in s.open && !s.open[st].closing && s.open[st].id != id
    requires Find(s.dev.conns, s.open[st].id).Some?
    requires Find(Remove(s.dev.conns, Find(s.dev.conns, s.open[st].id).value), id).Some?
    ensures var s' := Next(s, Arbitrate(st, id));
            && s'.open == s.open[st := Conn(id, true)] && !s'.crashed
            && s'.dev.conns == Remove(s.dev.conns, Find(s.dev.conns, s.open[st].id).value)
  {
  }

  lemma NoOtherEntry(s: Sys, st: Stream, id: U128)
    requires Registered(s) && st in s.open && s.open[st].id != id
    ensures Entry(st, id) !in s.dev.conns
  {
  }

  lemma SameConnectionsKeepGood(s: Sys, s': Sys)
    requires Good(s) && !s'.crashed
    requires s'.dev.conns == s.dev.conns && s'.dev.log == s.dev.log && s'.open.Keys == s.open.Keys
    requires forall st :: st in s.open ==> s'.open[st].id == s.open[st].id
    ensures Good(s')
  {
  }

  predicate Quiet(e: Event) {
    !e.Arbitrate? && !e.Clean? && !e.PacketFromDevice?
  }

  /** The other events touch neither the set nor what was sent. */
  lemma QuietStep(s: Sys, e: Event)
    requires !s.crashed && Quiet(e)
    ensures var s' := Next(s, e);
            && !s'.crashed && s'.dev.conns == s.dev.conns && s'.dev.log == s.dev.log && s'.open.Keys == s.open.Keys
            && forall st :: st in s.open ==> s'.open[st].id == s.open[st].id
  {
  }

  /** One step keeps registration and roles exactly when it is not a colliding re-arbitration. */
  lemma StepKeepsGoodIff(s: Sys, e: Event)
    requires Good(s)
    ensures Good(Next(s, e)) <==> !Collides(s, e)
  {
    match e
    case Arbitrate(st, id) =>
      if Collides(s, e) { CollisionUnregisters(s, e); } else { ArbitrateKeepsGood(s, st, id); }
    case Clean(st) => CleanKeepsGood(s, st);
    case PacketFromDevice(delivered) => PacketInKeepsSound(s.dev, delivered);
    case _ =>
      QuietStep(s, e);
      SameConnectionsKeepGood(s, Next(s, e));
  }

  /** No event before the k-th is a colliding re-arbitration. */
  ghost predicate CollisionFree(r: Run, k: nat)
    requires r.Valid() && k <= |r.events|
  {
    forall i :: 0 <= i < k ==> !Collides(r.states[i], r.events[i])
  }

  lemma GoodNext(r: Run, k: nat)
    requires r.Valid() && k < |r.events| && Good(r.states[k])
    ensures Good(r.states[k + 1]) <==> !Collides(r.states[k], r.events[k])
  {
    assert r.Linked(k);
    StepKeepsGoodIff(r.states[k], r.events[k]);
  }

  /**
   Role agreement over whole runs, both ways: every state so far has been good (no assert
   has fired, the set is exactly the open connections, each client's last arbitration
   message says "Is master" exactly when it is) if and only if no client has re-arbitrated
   with an election id held by another.
   */
  lemma {:induction false} RunGoodIff(r: Run, k: nat)
    requires r.Valid() && k <= |r.events|
    ensures (forall i :: 0 <= i <= k ==> Good(r.states[i])) <==> CollisionFree(r, k)
  {
    if k > 0 {
      RunGoodIff(r, k - 1);
      if Good(r.states[k - 1]) {
        GoodNext(r, k - 1);
      }
    }
  }

  /** Role agreement spelled out: told master, being first in the set, and holding the greatest id coincide. */
  lemma RoleAgreement(r: Run, k: nat, st: Stream)
    requires r.Valid() && k <= |r.events| && CollisionFree(r, k)
    ensures var s := r.states[k];
            !s.crashed &&
            (st in s.open ==>
               && LastTold(s.dev.log, st).Some?
               && (LastTold(s.dev.log, st).value.isMaster <==> IsMaster(s.dev, st))
               && (IsMaster(s.dev, st) <==>
                     forall t :: t in s.open ==> s.open[st].id.Value() >= s.open[t].id.Value()))
  {
    RunGoodIff(r, k);
    if st in r.states[k].open {
      MasterHoldsGreatest(r.states[k], st);
    }
  }

  lemma MasterHoldsGreatest(s: Sys, st: Stream)
    requires Good(s) && st in s.open
    ensures KnowsRole(s.dev.conns, s.dev.log, Entry(st, s.open[st].id))
    ensures IsMaster(s.dev, st) <==> forall t :: t in s.open ==> s.open[st].id.Value() >= s.open[t].id.Value()
  {
    var es, e := s.dev.conns, Entry(st, s.open[st].id);
    assert e in es && es[0] in es;
    if IsMaster(s.dev, st) {
      forall t | t in s.open ensures s.open[st].id.Value() >= s.open[t].id.Value() {
        var i :| 0 <= i < |es| && es[i] == Entry(t, s.open[t].id);
        ComparisonsAreNumeric(es[0].id, es[i].id);
      }
    } else {
      var i :| 0 <= i < |es| && es[i] == e;
      ComparisonsAreNumeric(es[0].id, es[i].id);
      assert s.open[es[0].stream].id == es[0].id;
    }
  }

  // ------------------------------------------------------- after a collision

  /**
   What a colliding re-arbitration does next: the handler returns, its cleanup looks the
   connection up by the id it asked for, and so evicts the connection that held that id.
   The victim's stream is still open, and its own cleanup fails the assert.
   */
  lemma CollisionEvictsTheHolder(s: Sys, e: Event, victim: Stream)
    requires Good(s) && Collides(s, e)
    requires victim in s.open && s.open[victim].id == e.id
    ensures victim != e.s
    ensures var s' := Next(Next(s, e), Clean(e.s));
            && !s'.crashed && victim in s'.open
            && (forall x :: x in s'.dev.conns <==> x in s.dev.conns && x.stream != e.s && x.stream != victim)
            && Next(Next(s', Close(victim)), Clean(victim)).crashed
  {
    CollisionUnregisters(s, e);
    var own, held := Entry(e.s, s.open[e.s].id), Entry(victim, e.id);
    OwnEntryErased(s.dev.conns, own, e.id);
    var s1 := Next(s, e);
    CleanEvicts(s1, e.s, held);
  }

  lemma CleanEvicts(s: Sys, st: Stream, held: Entry)
    requires !s.crashed && Descending(s.dev.conns) && held in s.dev.conns
    requires st in s.open && s.open[st] == Conn(held.id, true)
    requires st != held.stream && held.stream in s.open && s.open[held.stream].id == held.id
    ensures var s' := Next(s, Clean(st));
            && !s'.crashed && held.stream in s'.open
            && (forall x :: x in s'.dev.conns <==> x in s.dev.conns && x != held)
            && Next(Next(s', Close(held.stream)), Clean(held.stream)).crashed
  {
    CleanErasesById(s, st, held);
    UnregisteredCleanCrashes(Next(s, Clean(st)), held.stream);
  }

  /** Cleanup erases whichever connection holds the id of the one being cleaned up. */
  lemma CleanErasesById(s: Sys, st: Stream, held: Entry)
    requires !s.crashed && Descending(s.dev.conns) && held in s.dev.conns
    requires st in s.open && s.open[st] == Conn(held.id, true)
    ensures var s' := Next(s, Clean(st));
            && !s'.crashed && s'.open == s.open - {st}
            && (forall x :: x in s'.dev.conns <==> x in s.dev.conns && x != held)
            && Find(s'.dev.conns, held.id).None?
  {
    FindOwn(s.dev.conns, held);
    RemoveKeepsOrder(s.dev.conns, Find(s.dev.conns, held.id).value);
    IdGone(s.dev.conns, held);
  }

  lemma UnregisteredCleanCrashes(s: Sys, st: Stream)
    requires st in s.open && Find(s.dev.conns, s.open[st].id).None?
    ensures Next(Next(s, Close(st)), Clean(st)).crashed
  {
  }

  lemma IdGone(es: seq<Entry>, e: Entry)
    requires Descending(es) && e in es
    ensures Find(es, e.id).Some? && Find(Remove(es, Find(es, e.id).value), e.id).None?
  {
    FindOwn(es, e);
    var rest := Remove(es, Find(es, e.id).value);
    RemoveKeepsOrder(es, Find(es, e.id).value);
    if Held(rest, e.id) {
      var i :| 0 <= i < |rest| && rest[i].id == e.id;
      assert rest[i] in rest;
      FindOwn(es, rest[i]);
    }
  }

  // -------------------------------------------------- the announced master id

  ghost predicate Silent(s: Sys, e: Event) {
    && e.Arbitrate? && e.s in s.open && !s.open[e.s].closing && s.open[e.s].id != e.id
    && SilentMasterChange(s.dev, Entry(e.s, s.open[e.s].id), e.id)
  }

  ghost predicate Informed(s: Sys) {
    Good(s) && MasterIdKnown(s.dev.conns, s.dev.log)
  }

  lemma AddKeepsMasterId(d: Device, e: Entry)
    requires Sound(d) && MasterIdKnown(d.conns, d.log) && forall x :: x in d.conns ==> x.stream != e.stream
    ensures var d' := Add(d, e).0; MasterIdKnown(d'.conns, d'.log)
  {
    AddKeepsSound(d, e);
    if |d.conns| < MAX_CONNECTIONS && Find(d.conns, e.id).None? {
      InsertKeepsOrder(d.conns, e);
      var es' := Insert(d.conns, e);
      if Position(d.conns, e.id) == 0 {
        NotifyAllTellsEveryone(es', d.log);
      } else {
        NoticeKeepsMasterId(es', d.log, e);
      }
    }
  }

  lemma CleanupKeepsMasterId(d: Device, e: Entry)
    requires Sound(d) && MasterIdKnown(d.conns, d.log) && e in d.conns
    ensures Find(d.conns, e.id).Some?
    ensures var d' := Cleanup(d, e); MasterIdKnown(d'.conns, d'.log)
  {
    CleanupKeepsSound(d, e);
    var at := Find(d.conns, e.id).value;
    RemoveKeepsOrder(d.conns, at);
    if at == 0 {
      NotifyAllTellsEveryone(Remove(d.conns, at), d.log);
    }
  }

  lemma PacketInKeepsMasterId(d: Device, delivered: bool)
    requires MasterIdKnown(d.conns, d.log)
    ensures var d' := SendPacketIn(d, delivered); MasterIdKnown(d'.conns, d'.log)
  {
    if d.conns != [] {
      var m := Sent(d.conns[0].stream, PacketIn);
      forall e | e in d.conns ensures LastTold(d.log + [m], e.stream) == LastTold(d.log, e.stream) {
        LastToldAppend(d.log, m, e.stream);
      }
    }
  }

  /**
   The election id of the master, which every arbitration message also carries: a step that
   does not collide keeps everyone's copy current exactly when it is not the sitting master
   taking another id and staying master in front of other connections.
   */
  lemma StepKeepsInformedIff(s: Sys, e: Event)
    requires Informed(s) && !Collides(s, e)
    ensures Informed(Next(s, e)) <==> !Silent(s, e)
  {
    StepKeepsGoodIff(s, e);
    match e
    case Arbitrate(st, id) =>
      if st !in s.open {
        AddKeepsMasterId(s.dev, Entry(st, id));
      } else if !s.open[st].closing && s.open[st].id != id {
        UpdateMasterIdIff(s.dev, Entry(st, s.open[st].id), id);
      }
    case Clean(st) =>
      if st in s.open && s.open[st].closing {
        CleanupKeepsMasterId(s.dev, Entry(st, s.open[st].id));
      }
    case PacketFromDevice(delivered) => PacketInKeepsMasterId(s.dev, delivered);
    case _ => QuietStep(s, e);
  }

  lemma InformedNext(r: Run, k: nat)
    requires r.Valid() && k < |r.events| && Informed(r.states[k]) && !Collides(r.states[k], r.events[k])
    ensures Informed(r.states[k + 1]) <==> !Silent(r.states[k], r.events[k])
  {
    assert r.Linked(k);
    StepKeepsInformedIff(r.states[k], r.events[k]);
  }

  /** On a collision-free run everyone has always known the master's id iff no change was silent. */
  lemma {:induction false} RunInformedIff(r: Run, k: nat)
    requires r.Valid() && k <= |r.events| && CollisionFree(r, k)
    ensures (forall i :: 0 <= i <= k ==> Informed(r.states[i])) <==>
            (forall i :: 0 <= i < k ==> !Silent(r.states[i], r.events[i]))
  {
    if k > 0 {
      RunInformedIff(r, k - 1);
      if Informed(r.states[k - 1]) {
        InformedNext(r, k - 1);
      }
    }
  }

  /** The smallest such step: 1 is master with id 5 before 2 with id 3, then takes id 7. */
  lemma StaleMasterId(s: Sys)
    requires Informed(s) && s.dev.conns == [Entry(1, U128(0, 5)), Entry(2, U128(0, 3))] && !s.open[1].closing
    ensures var s' := Next(s, Arbitrate(1, U128(0, 7)));
            && IsMasterId(s'.dev, U128(0, 7))
            && LastTold(s'.dev.log, 2).Some? && LastTold(s'.dev.log, 2).value.masterId == U128(0, 5)
  {
    assert s.dev.conns[0] in s.dev.conns && s.dev.conns[1] in s.dev.conns;
    MasterTakesSeven(s.dev);
  }

  lemma MasterTakesSeven(d: Device)
    requires d.conns == [Entry(1, U128(0, 5)), Entry(2, U128(0, 3))]
    ensures Find(d.conns, U128(0, 5)).Some?
    ensures var d' := Update(d, Entry(1, U128(0, 5)), U128(0, 7)).0;
            IsMasterId(d', U128(0, 7)) && LastTold(d'.log, 2) == LastTold(d.log, 2)
  {
    var a, b, a' := Entry(1, U128(0, 5)), Entry(2, U128(0, 3)), Entry(1, U128(0, 7));
    assert Find([a, b], a.id) == Some(0) && Remove([a, b], 0) == [b];
    assert Position([b], a'.id) == 0 && Insert([b], a') == [a', b];
    LastToldAppend(d.log, Notice([a', b], a'), 2);
  }

  // ----------------------------------------------------- admission of requests

  /** The handler's size check found no connection and the request named no election id. */
  ghost predicate SawEmptySet(r: Run, i: nat, h: nat)
    requires r.Valid() && i < |r.events|
  {
    var e := r.events[i];
    e.RpcSize? && e.h == h && e.electionId.None? && r.states[i].dev.conns == []
  }

  /** The size check at i was followed, at j, by a master check that found the claimed id in front. */
  ghost predicate SawItselfMaster(r: Run, i: nat, j: nat, h: nat)
    requires r.Valid() && i < j < |r.events|
  {
    var e := r.events[i];
    e.RpcSize? && e.h == h && r.events[j] == RpcCheck(h) && IsMasterId(r.states[j].dev, Claimed(e.electionId))
  }

  ghost predicate SizedAt(r: Run, i: nat, h: nat, id: U128)
    requires r.Valid() && i < |r.events|
  {
    var e := r.events[i];
    e.RpcSize? && e.h == h && Claimed(e.electionId) == id
  }

  ghost predicate Admitted(r: Run, k: nat, h: nat)
    requires r.Valid() && k <= |r.events|
  {
    || (exists i :: 0 <= i < k && SawEmptySet(r, i, h))
    || (exists i, j :: 0 <= i < j < k && SawItselfMaster(r, i, j, h))
  }

  /** How far each handler has come is explained by what it saw. */
  ghost predicate Traced(r: Run, k: nat, h: nat)
    requires r.Valid() && k <= |r.events|
  {
    var rpcs := r.states[k].rpcs;
    h in rpcs ==>
      && (rpcs[h].Sized? ==> exists i :: 0 <= i < k && SizedAt(r, i, h, rpcs[h].id))
      && (rpcs[h].Passed? ==> Admitted(r, k, h))
  }

  /** How one event can move one handler. */
  lemma RpcMoves(s: Sys, e: Event, h: nat)
    ensures var s' := Next(s, e);
            h in s'.rpcs ==>
              || (h in s.rpcs && s'.rpcs[h] == s.rpcs[h])
              || (s'.rpcs[h].Finished?)
              || (e.RpcSize? && e.h == h && s'.rpcs[h].Sized? && s'.rpcs[h].id == Claimed(e.electionId))
              || (e.RpcSize? && e.h == h && s'.rpcs[h].Passed? && e.electionId.None? && s.dev.conns == [])
              || (e == RpcCheck(h) && h in s.rpcs && s.rpcs[h].Sized? && s'.rpcs[h].Passed? &&
                  IsMasterId(s.dev, s.rpcs[h].id))
  {
  }

  lemma AdmittedLater(r: Run, k: nat, h: nat)
    requires r.Valid() && k < |r.events| && Admitted(r, k, h)
    ensures Admitted(r, k + 1, h)
  {
  }

  lemma TraceStep(r: Run, k: nat, h: nat)
    requires r.Valid() && k < |r.events| && Traced(r, k, h)
    ensures Traced(r, k + 1, h)
  {
    var s, e, s' := r.states[k], r.events[k], r.states[k + 1];
    assert r.Linked(k);
    RpcMoves(s, e, h);
    if h in s'.rpcs {
      if h in s.rpcs && s'.rpcs[h] == s.rpcs[h] {
        if s.rpcs[h].Passed? { AdmittedLater(r, k, h); }
      } else if s'.rpcs[h].Sized? {
        assert SizedAt(r, k, h, s'.rpcs[h].id);
      } else if s'.rpcs[h].Passed? && e.RpcSize? {
        assert SawEmptySet(r, k, h);
      } else if s'.rpcs[h].Passed? {
        var i :| 0 <= i < k && SizedAt(r, i, h, s.rpcs[h].id);
        assert SawItselfMaster(r, i, k, h);
      }
    }
  }

  lemma {:induction false} HandlersAreTraced(r: Run, k: nat, h: nat)
    requires r.Valid() && k <= |r.events|
    ensures Traced(r, k, h)
  {
    if k > 0 {
      HandlersAreTraced(r, k - 1, h);
      TraceStep(r, k - 1, h);
    }
  }

  function PacketsIn(handled: seq<Handled>): nat {
    if handled == [] then 0
    else PacketsIn(handled[..|handled| - 1]) + if IsPacketOut(handled[|handled| - 1]) then 1 else 0
  }

  predicate IsPacketOut(x: Handled) {
    x.FromStream? && x.isPacket
  }

  ghost predicate RequestedByMaster(r: Run, i: nat, st: Stream, isPacket: bool)
    requires r.Valid() && i < |r.events|
  {
    r.events[i] == Request(st, isPacket) && IsMaster(r.states[i].dev, st)
  }

  /** What a request that reached the device manager went through, whichever way it came. */
  ghost predicate Justified(r: Run, k: nat, x: Handled)
    requires r.Valid() && k <= |r.events|
  {
    match x
    case FromRpc(h) => Admitted(r, k, h)
    case FromStream(st, isPacket) => exists i :: 0 <= i < k && RequestedByMaster(r, i, st, isPacket)
  }

  ghost predicate AllJustified(r: Run, k: nat)
    requires r.Valid() && k <= |r.events|
  {
    var handled := r.states[k].dev.handled;
    forall x :: x in handled ==> Justified(r, k, x)
  }

  ghost predicate Counted(d: Device) {
    d.pktOut == Wrap64(PacketsIn(d.handled))
  }

  /** One event hands at most one request to the device manager, and counts it if it is a packet. */
  lemma HandledGrows(s: Sys, e: Event) returns (x: Option<Handled>)
    ensures var d, d' := s.dev, Next(s, e).dev;
            match x
            case None => d'.handled == d.handled && d'.pktOut == d.pktOut
            case Some(y) =>
              && d'.handled == d.handled + [y]
              && d'.pktOut == (if IsPacketOut(y) then Wrap64(d.pktOut + 1) else d.pktOut)
              && match y
                 case FromRpc(h) => e == RpcDeliver(h) && Reaches(s, h)
                 case FromStream(st, isPacket) => e == Request(st, isPacket) && IsMaster(d, st)
  {
    x := None;
    if e.RpcDeliver? && Reaches(s, e.h) {
      x := Some(FromRpc(e.h));
    } else if e.Request? && !s.crashed && e.s in s.open && !s.open[e.s].closing && IsMaster(s.dev, e.s) && s.dev.mgr {
      x := Some(FromStream(e.s, e.isPacket));
    }
  }

  lemma CountStep(handled: seq<Handled>, count: u64, y: Handled)
    requires count == Wrap64(PacketsIn(handled))
    ensures (if IsPacketOut(y) then Wrap64(count + 1) else count) == Wrap64(PacketsIn(handled + [y]))
  {
    assert (handled + [y])[..|handled + [y]| - 1] == handled;
    WrappedTwice(PacketsIn(handled), 1);
  }

  lemma HandledStep(r: Run, k: nat)
    requires r.Valid() && k < |r.events| && AllJustified(r, k) && Counted(r.states[k].dev)
    ensures AllJustified(r, k + 1) && Counted(r.states[k + 1].dev)
  {
    var s, e, s' := r.states[k], r.events[k], r.states[k + 1];
    assert r.Linked(k);
    var x := HandledGrows(s, e);
    if x.Some? {
      CountStep(s.dev.handled, s.dev.pktOut, x.value);
    }
    forall y | y in s'.dev.handled ensures Justified(r, k + 1, y) {
      if y in s.dev.handled {
        JustifiedLater(r, k, y);
      } else if y.FromRpc? {
        HandlersAreTraced(r, k, y.handler);
        AdmittedLater(r, k, y.handler);
      } else {
        assert RequestedByMaster(r, k, y.stream, y.isPacket);
      }
    }
  }

  lemma JustifiedLater(r: Run, k: nat, x: Handled)
    requires r.Valid() && k < |r.events| && Justified(r, k, x)
    ensures Justified(r, k + 1, x)
  {
    if x.FromRpc? { AdmittedLater(r, k, x.handler); }
  }

  /**
   Admission over every interleaving. Each Write or SetForwardingPipelineConfig that reached
   the device manager saw an empty set and carried no election id, or carried the master's
   election id at its own master check; each stream message that did came from the stream
   that was master at that instant; the counter is the number of packets among them, modulo
   the width of the counter.
   */
  lemma {:induction false} HandledRequestsAreJustified(r: Run, k: nat)
    requires r.Valid() && k <= |r.events|
    ensures AllJustified(r, k) && Counted(r.states[k].dev)
  {
    if k > 0 {
      HandledRequestsAreJustified(r, k - 1);
      HandledStep(r, k - 1);
    }
  }

  /** The id a handler's master check accepted was then the greatest of all connections. */
  lemma AcceptedIdIsGreatest(r: Run, i: nat, j: nat, h: nat)
    requires r.Valid() && i < j < |r.events| && SawItselfMaster(r, i, j, h)
    ensures var es := r.states[j].dev.conns;
            forall k :: 0 <= k < |es| ==> es[k].id.Value() <= Claimed(r.events[i].electionId).Value()
  {
    ConnectionsStayOrdered(r, j);
  }

  // -------------------------------------------------------------- what gets through

  /** A handler that has nothing between its checks is admitted exactly on the conditions of the source. */
  lemma AdmittedIff(s: Sys, h: nat, kind: Kind, electionId: Option<U128>)
    requires !s.crashed && h !in s.rpcs
    ensures var s' := Next(Next(s, RpcSize(h, kind, electionId)), RpcCheck(h));
      s'.rpcs[h] == Passed(kind) <==>
        if s.dev.conns == [] then electionId.None?
        else s.dev.conns[0].id == if electionId.Some? then electionId.value else U128(0, 0)
  {
    assert Next(s, RpcSize(h, kind, electionId)).dev == s.dev;
  }

  /** A packet-in is handed to a client. */
  predicate Delivers(s: Sys, e: Event) {
    e == PacketFromDevice(true) && !s.crashed && s.dev.conns != []
  }

  /** Packet-ins handed to a client before step k. */
  function Deliveries(r: Run, k: nat): nat
    requires k <= |r.events| < |r.states|
  {
    if k == 0 then 0 else Deliveries(r, k - 1) + if Delivers(r.states[k - 1], r.events[k - 1]) then 1 else 0
  }

  lemma PacketInStep(s: Sys, e: Event)
    ensures Next(s, e).dev.pktIn == if Delivers(s, e) then Wrap64(s.dev.pktIn + 1) else s.dev.pktIn
  {
  }

  lemma PacketInCount(r: Run, k: nat)
    requires r.Valid() && k < |r.events|
    ensures r.states[k + 1].dev.pktIn ==
            if Delivers(r.states[k], r.events[k]) then Wrap64(r.states[k].dev.pktIn + 1) else r.states[k].dev.pktIn
  {
    assert r.Linked(k);
    PacketInStep(r.states[k], r.events[k]);
  }

  /** Over every run `pkt_in_count` counts the packets delivered, modulo the width of the counter. */
  lemma {:induction false} PacketInsAreCounted(r: Run, k: nat)
    requires r.Valid() && k <= |r.events|
    ensures r.states[k].dev.pktIn == Wrap64(Deliveries(r, k))
  {
    if k > 0 {
      PacketInsAreCounted(r, k - 1);
      PacketInCount(r, k - 1);
      WrappedTwice(Deliveries(r, k - 1), 1);
    }
  }
}
