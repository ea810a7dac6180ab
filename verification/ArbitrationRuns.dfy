/**
 More about whole runs of the arbitration machine (proto/server/pi_server.cpp): what is handed to
 the device manager and to the clients, in order and each once, and small runs from the start on
 which role agreement and the announced election id fail.
 */
module ArbitrationRuns {
  import opened Basics
  import opened WideInt
  import opened DeviceSpec
  import opened Arbitration

  // ------------------------------------------------------ handed to the manager

  /** The stream has a connection, and no connection has a greater election id. */
  ghost predicate Greatest(es: seq<Entry>, st: Stream) {
    exists x :: x in es && x.stream == st && forall y :: y in es ==> y.id.Value() <= x.id.Value()
  }

  lemma MasterIsGreatest(es: seq<Entry>, st: Stream)
    requires Ordered(es)
    ensures Greatest(es, st) <==> es != [] && es[0].stream == st
  {
    if es != [] {
      forall y | y in es ensures y.id.Value() <= es[0].id.Value() {
        var i :| 0 <= i < |es| && es[i] == y;
        ComparisonsAreNumeric(es[0].id, y.id);
      }
      if Greatest(es, st) {
        var x :| x in es && x.stream == st && forall y :: y in es ==> y.id.Value() <= x.id.Value();
        var i :| 0 <= i < |es| && es[i] == x;
        assert es[0] in es;
        ComparisonsAreNumeric(es[0].id, x.id);
      }
    }
  }

  /** Some connection has this election id, and none a greater one. */
  ghost predicate GreatestId(es: seq<Entry>, id: U128) {
    exists x :: x in es && x.id == id && forall y :: y in es ==> y.id.Value() <= x.id.Value()
  }

  lemma MasterIdIsGreatest(d: Device, id: U128)
    requires Ordered(d.conns)
    ensures IsMasterId(d, id) <==> GreatestId(d.conns, id)
  {
    var es := d.conns;
    if es != [] {
      MasterIsGreatest(es, es[0].stream);
      forall y | y in es ensures y.id.Value() <= es[0].id.Value() {
        var i :| 0 <= i < |es| && es[i] == y;
        ComparisonsAreNumeric(es[0].id, y.id);
      }
      assert es[0] in es;
      if GreatestId(es, id) {
        var x :| x in es && x.id == id && forall y :: y in es ==> y.id.Value() <= x.id.Value();
        SameValueSameWords(x.id, es[0].id);
      }
    }
  }

  /**
   How far a handler is to have come, whatever else goes on between its steps: past its checks
   if there was no connection and it claimed no election id, or if its claim (zero, if it made
   none) was the greatest id at its second check.
   */
  ghost function HandlerAt(r: Run, k: nat, h: nat): Option<Rpc>
    requires k <= |r.events| < |r.states|
  {
    if k == 0 then None
    else
      var s, before := r.states[k - 1], HandlerAt(r, k - 1, h);
      if s.crashed then before
      else
        match r.events[k - 1]
        case RpcSize(h', kind, id) =>
          if h' != h || before.Some? then before
          else if s.dev.conns != [] then Some(Sized(kind, if id.Some? then id.value else U128(0, 0)))
          else Some(if id.None? then Passed(kind) else Finished)
        case RpcCheck(h') =>
          if h' != h || before.None? || !before.value.Sized? then before
          else Some(if GreatestId(s.dev.conns, before.value.id) then Passed(before.value.kind) else Finished)
        case RpcDeliver(h') =>
          if h' != h || before.None? || !before.value.Passed? then before else Some(Finished)
        case _ => before
  }

  function Progress(s: Sys, h: nat): Option<Rpc> {
    if h in s.rpcs then Some(s.rpcs[h]) else None
  }

  lemma HandlerStep(s: Sys, e: Event, h: nat)
    requires Ordered(s.dev.conns)
    ensures Progress(Next(s, e), h) ==
      if s.crashed then Progress(s, h)
      else
        match e
        case RpcSize(h', kind, id) =>
          if h' != h || h in s.rpcs then Progress(s, h)
          else if s.dev.conns != [] then Some(Sized(kind, if id.Some? then id.value else U128(0, 0)))
          else Some(if id.None? then Passed(kind) else Finished)
        case RpcCheck(h') =>
          if h' != h || h !in s.rpcs || !s.rpcs[h].Sized? then Progress(s, h)
          else Some(if GreatestId(s.dev.conns, s.rpcs[h].id) then Passed(s.rpcs[h].kind) else Finished)
        case RpcDeliver(h') =>
          if h' != h || h !in s.rpcs || !s.rpcs[h].Passed? then Progress(s, h) else Some(Finished)
        case _ => Progress(s, h)
  {
    if e == RpcCheck(h) && h in s.rpcs && s.rpcs[h].Sized? { MasterIdIsGreatest(s.dev, s.rpcs[h].id); }
  }

  /** Over every interleaving each handler comes just so far. */
  lemma {:induction false} HandlersFollow(r: Run, k: nat, h: nat)
    requires r.Valid() && k <= |r.events|
    ensures Progress(r.states[k], h) == HandlerAt(r, k, h)
  {
    if k > 0 {
      HandlersFollow(r, k - 1, h);
      StaysOrdered(r, k - 1);
      assert r.Linked(k - 1);
      HandlerStep(r.states[k - 1], r.events[k - 1], h);
    }
  }

  /** An earlier event delivered a SetForwardingPipelineConfig. */
  ghost predicate PipelineSetAt(r: Run, i: nat)
    requires i < |r.events| < |r.states|
  {
    var s, e := r.states[i], r.events[i];
    e.RpcDeliver? && !s.crashed && HandlerAt(r, i, e.h) == Some(Passed(SetPipeline))
  }

  ghost predicate PipelineSet(r: Run, k: nat)
    requires k <= |r.events| < |r.states|
  {
    exists i :: 0 <= i < k && PipelineSetAt(r, i)
  }

  lemma ManagerStep(s: Sys, e: Event)
    ensures Next(s, e).dev.mgr <==>
            s.dev.mgr || (e.RpcDeliver? && !s.crashed && e.h in s.rpcs && s.rpcs[e.h] == Passed(SetPipeline))
  {
  }

  /** There is a device manager exactly once a pipeline has been set. */
  lemma {:induction false} ManagerIff(r: Run, k: nat)
    requires r.Valid() && k <= |r.events|
    ensures r.states[k].dev.mgr <==> PipelineSet(r, k)
  {
    if k > 0 {
      ManagerIff(r, k - 1);
      assert r.Linked(k - 1);
      if r.events[k - 1].RpcDeliver? { HandlersFollow(r, k - 1, r.events[k - 1].h); }
      ManagerStep(r.states[k - 1], r.events[k - 1]);
      if PipelineSetAt(r, k - 1) {
        assert PipelineSet(r, k);
      }
    }
  }

  /**
   What event i is to hand to the device manager: a message of an open stream with the greatest
   election id, or the request of a handler past its checks, once a pipeline has been set; and
   the request that sets it.
   */
  ghost function HandsOn(r: Run, i: nat): Option<Handled>
    requires i < |r.events| < |r.states|
  {
    var s := r.states[i];
    if s.crashed then None
    else
      match r.events[i]
      case Request(st, isPacket) =>
        if st in s.open && !s.open[st].closing && Greatest(s.dev.conns, st) && PipelineSet(r, i)
        then Some(FromStream(st, isPacket)) else None
      case RpcDeliver(h) =>
        var p := HandlerAt(r, i, h);
        if p.Some? && p.value.Passed? && (PipelineSet(r, i) || p.value.kind.SetPipeline?) then Some(FromRpc(h)) else None
      case _ => None
  }

  /** All that the first k events are to hand on, in order. */
  ghost function AllHandedOn(r: Run, k: nat): seq<Handled>
    requires k <= |r.events| < |r.states|
  {
    if k == 0 then []
    else
      match HandsOn(r, k - 1)
      case None => AllHandedOn(r, k - 1)
      case Some(x) => AllHandedOn(r, k - 1) + [x]
  }

  lemma HandledStep(r: Run, k: nat)
    requires r.Valid() && k < |r.events|
    ensures r.states[k + 1].dev.handled ==
            match HandsOn(r, k) case None => r.states[k].dev.handled case Some(x) => r.states[k].dev.handled + [x]
  {
    assert r.Linked(k);
    ManagerIff(r, k);
    StaysOrdered(r, k);
    if r.events[k].RpcDeliver? { HandlersFollow(r, k, r.events[k].h); }
    if r.events[k].Request? {
      MasterIsGreatest(r.states[k].dev.conns, r.events[k].s);
    }
  }

  /**
   Over every run, what the device manager has been handed is exactly what was to be handed on,
   in order and each once: nothing that is not admitted, and nothing admitted held back.
   */
  lemma {:induction false} HandledInOrder(r: Run, k: nat)
    requires r.Valid() && k <= |r.events|
    ensures r.states[k].dev.handled == AllHandedOn(r, k)
  {
    if k > 0 {
      HandledInOrder(r, k - 1);
      HandledStep(r, k - 1);
    }
  }

  ghost predicate Spent(s: Sys, h: nat) {
    h in s.rpcs && s.rpcs[h].Finished?
  }

  lemma SpentStays(s: Sys, e: Event, h: nat)
    requires Spent(s, h)
    ensures Spent(Next(s, e), h)
  {
  }

  function TimesDelivered(handled: seq<Handled>, h: nat): nat {
    if handled == [] then 0
    else TimesDelivered(handled[..|handled| - 1], h) + if handled[|handled| - 1] == FromRpc(h) then 1 else 0
  }

  /** No handler's request is handed on twice. */
  lemma {:induction false} HandedOnOnce(r: Run, k: nat, h: nat)
    requires r.Valid() && k <= |r.events|
    ensures var n := TimesDelivered(r.states[k].dev.handled, h); n <= 1 && (n == 1 ==> Spent(r.states[k], h))
  {
    if k > 0 {
      HandedOnOnce(r, k - 1, h);
      assert r.Linked(k - 1);
      var s, e := r.states[k - 1], r.events[k - 1];
      var x := HandledGrows(s, e);
      if x.Some? {
        assert (s.dev.handled + [x.value])[..|s.dev.handled|] == s.dev.handled;
      }
      if Spent(s, h) { SpentStays(s, e, h); }
      if x == Some(FromRpc(h)) { DeliveredIsSpent(s, h); }
    }
  }

  lemma DeliveredIsSpent(s: Sys, h: nat)
    requires Reaches(s, h)
    ensures Spent(Next(s, RpcDeliver(h)), h) && !Spent(s, h)
  {
  }

  /**
   Admission over every interleaving: what reached the device manager is, in order and each once,
   what was to be handed on; every handler among it saw an empty set and claimed no election id, or
   claimed the master's at its own check; no handler delivers twice; and the counter of packet-outs
   is their number, modulo its width.
   */
  lemma AdmissionOverRuns(r: Run, k: nat)
    requires r.Valid() && k <= |r.events|
    ensures r.states[k].dev.handled == AllHandedOn(r, k) && AllJustified(r, k) && Counted(r.states[k].dev)
    ensures forall h :: TimesDelivered(r.states[k].dev.handled, h) <= 1
  {
    HandledInOrder(r, k);
    HandledRequestsAreJustified(r, k);
    forall h ensures TimesDelivered(r.states[k].dev.handled, h) <= 1 {
      HandedOnOnce(r, k, h);
    }
  }

  // --------------------------------------------------------- handed to the clients

  /** Who was sent the packet-ins of a log, in order. */
  function Recipients(log: seq<Sent>): seq<Stream> {
    if log == [] then []
    else
      var last := log[|log| - 1];
      Recipients(log[..|log| - 1]) + if last.msg.PacketIn? then [last.stream] else []
  }

  lemma NoRecipient(log: seq<Sent>, m: Sent)
    requires m.msg.Arbitration?
    ensures Recipients(log + [m]) == Recipients(log)
  {
    assert (log + [m])[..|log|] == log;
  }

  lemma {:induction false} NotifyingIsNoPacket(es: seq<Entry>, log: seq<Sent>, n: nat)
    requires n <= |es|
    ensures Recipients(NotifyFirst(es, log, n)) == Recipients(log)
  {
    if n > 0 {
      NotifyingIsNoPacket(es, log, n - 1);
      NoRecipient(NotifyFirst(es, log, n - 1), Notice(es, es[n - 1]));
    }
  }

  lemma AddIsNoPacket(d: Device, e: Entry)
    ensures Recipients(Add(d, e).0.log) == Recipients(d.log)
  {
    var es := Insert(d.conns, e);
    NotifyingIsNoPacket(es, d.log, |es|);
    NoRecipient(d.log, Notice(es, e));
  }

  lemma UpdateIsNoPacket(d: Device, e: Entry, newId: U128)
    requires e.id == newId || Find(d.conns, e.id).Some?
    ensures Recipients(Update(d, e, newId).0.log) == Recipients(d.log)
  {
    if e.id != newId {
      var e' := Entry(e.stream, newId);
      var es := Insert(Remove(d.conns, Find(d.conns, e.id).value), e');
      NotifyingIsNoPacket(es, d.log, |es|);
      NoRecipient(d.log, Notice(es, e'));
    }
  }

  lemma CleanupIsNoPacket(d: Device, e: Entry)
    requires Find(d.conns, e.id).Some?
    ensures Recipients(Cleanup(d, e).log) == Recipients(d.log)
  {
    var rest := Remove(d.conns, Find(d.conns, e.id).value);
    NotifyingIsNoPacket(rest, d.log, |rest|);
  }

  lemma OtherEventsSendNoPacket(s: Sys, e: Event)
    requires !e.PacketFromDevice?
    ensures Recipients(Next(s, e).dev.log) == Recipients(s.dev.log)
  {
    if !s.crashed {
      match e
      case Arbitrate(st, id) =>
        if st !in s.open {
          AddIsNoPacket(s.dev, Entry(st, id));
        } else {
          var own := Entry(st, s.open[st].id);
          if own.id == id || Find(s.dev.conns, own.id).Some? { UpdateIsNoPacket(s.dev, own, id); }
        }
      case Clean(st) =>
        if st in s.open && Find(s.dev.conns, s.open[st].id).Some? { CleanupIsNoPacket(s.dev, Entry(st, s.open[st].id)); }
      case _ =>
    }
  }

  /** Each packet from the device, in order, went to the stream with the greatest election id then; none if there was none. */
  ghost predicate AllToGreatest(r: Run, k: nat, to: seq<Stream>)
    requires k <= |r.events| < |r.states|
  {
    if k == 0 then to == []
    else
      var s := r.states[k - 1];
      if r.events[k - 1].PacketFromDevice? && !s.crashed && s.dev.conns != []
      then to != [] && Greatest(s.dev.conns, to[|to| - 1]) && AllToGreatest(r, k - 1, to[..|to| - 1])
      else AllToGreatest(r, k - 1, to)
  }

  /** Over every run the clients have been sent exactly these packet-ins. */
  lemma {:induction false} PacketInsGoToTheMaster(r: Run, k: nat)
    requires r.Valid() && k <= |r.events|
    ensures AllToGreatest(r, k, Recipients(r.states[k].dev.log))
  {
    if k > 0 {
      PacketInsGoToTheMaster(r, k - 1);
      assert r.Linked(k - 1);
      var s, e := r.states[k - 1], r.events[k - 1];
      if !e.PacketFromDevice? {
        OtherEventsSendNoPacket(s, e);
      } else if !s.crashed && s.dev.conns != [] {
        var m := Sent(s.dev.conns[0].stream, PacketIn);
        assert (s.dev.log + [m])[..|s.dev.log|] == s.dev.log;
        StaysOrdered(r, k - 1);
        MasterIsGreatest(s.dev.conns, m.stream);
        var before := Recipients(s.dev.log);
        assert (before + [m.stream])[..|before|] == before;
      }
    }
  }

  // ------------------------------------------------------------------ two runs

  const FIRST := Entry(1, U128(0, 5))
  const SECOND := Entry(2, U128(0, 3))

  lemma FirstConnects()
    ensures var s := Next(Init, Arbitrate(1, U128(0, 5)));
      Informed(s) && s.dev.conns == [FIRST] && s.open == map[1 := Conn(U128(0, 5), false)]
    ensures !Collides(Init, Arbitrate(1, U128(0, 5)))
  {
    assert Informed(Init);
    StepKeepsInformedIff(Init, Arbitrate(1, U128(0, 5)));
    assert Insert([], FIRST) == [FIRST];
  }

  lemma SecondConnects(s: Sys)
    requires Informed(s) && s.dev.conns == [FIRST] && s.open == map[1 := Conn(U128(0, 5), false)]
    ensures var s' := Next(s, Arbitrate(2, U128(0, 3)));
      && Informed(s') && s'.dev.conns == [FIRST, SECOND]
      && s'.open == map[1 := Conn(U128(0, 5), false), 2 := Conn(U128(0, 3), false)]
    ensures !Collides(s, Arbitrate(2, U128(0, 3)))
  {
    StepKeepsInformedIff(s, Arbitrate(2, U128(0, 3)));
    SecondComesSecond();
  }

  lemma SecondComesSecond()
    ensures Find([FIRST], SECOND.id).None? && Insert([FIRST], SECOND) == [FIRST, SECOND]
  {
    assert [FIRST][1..] == [];
    assert Position([FIRST], SECOND.id) == 1;
  }

  /** Stream 1 is master with id 5, stream 2 follows with id 3. */
  lemma TwoConnected(r: Run)
    requires r.Valid() && |r.events| >= 2
    requires r.events[0] == Arbitrate(1, U128(0, 5)) && r.events[1] == Arbitrate(2, U128(0, 3))
    ensures Informed(r.states[2]) && r.states[2].dev.conns == [FIRST, SECOND]
    ensures r.states[2].open == map[1 := Conn(U128(0, 5), false), 2 := Conn(U128(0, 3), false)]
    ensures CollisionFree(r, 2)
  {
    assert r.Linked(0) && r.Linked(1);
    FirstConnects();
    SecondConnects(r.states[1]);
    NeitherCollides(r);
  }

  lemma NeitherCollides(r: Run)
    requires r.Valid() && |r.events| >= 2
    requires !Collides(r.states[0], r.events[0]) && !Collides(r.states[1], r.events[1])
    ensures CollisionFree(r, 2)
  {
  }

  lemma SecondIdIsHeld(s: Sys)
    requires s.dev.conns == [FIRST, SECOND] && 1 in s.open && s.open[1] == Conn(U128(0, 5), false)
    ensures Collides(s, Arbitrate(1, U128(0, 3)))
  {
    assert s.dev.conns[1].id == U128(0, 3);
  }

  lemma NobodyLeft(s: Sys, s': Sys)
    requires s.dev.conns == [FIRST, SECOND]
    requires forall x :: x in s'.dev.conns <==> x in s.dev.conns && x.stream != 1 && x.stream != 2
    ensures s'.dev.conns == []
  {
    HeadIsIn(s'.dev.conns);
  }

  lemma HeadIsIn(es: seq<Entry>)
    ensures es == [] || es[0] in es
  {
  }

  lemma CollisionStep(s: Sys)
    requires Good(s) && s.dev.conns == [FIRST, SECOND]
    requires s.open == map[1 := Conn(U128(0, 5), false), 2 := Conn(U128(0, 3), false)]
    ensures var s' := Next(Next(s, Arbitrate(1, U128(0, 3))), Clean(1));
      2 in s'.open && s'.dev.conns == [] && Next(Next(s', Close(2)), Clean(2)).crashed
  {
    var e := Arbitrate(1, U128(0, 3));
    SecondIdIsHeld(s);
    CollisionEvictsTheHolder(s, e, 2);
    NobodyLeft(s, Next(Next(s, e), Clean(1)));
  }

  /** A run that collides, evicts the innocent and fails an assertion. */
  lemma CollidingRun() returns (r: Run)
    ensures r.Valid() && r.events == [Arbitrate(1, U128(0, 5)), Arbitrate(2, U128(0, 3)), Arbitrate(1, U128(0, 3)), Clean(1), Close(2), Clean(2)]
    ensures Good(r.states[2]) && Collides(r.states[2], r.events[2]) && !Good(r.states[3])
    ensures 2 in r.states[4].open && r.states[4].dev.conns == [] && r.states[6].crashed
  {
    r := RunExists([Arbitrate(1, U128(0, 5)), Arbitrate(2, U128(0, 3)), Arbitrate(1, U128(0, 3)), Clean(1), Close(2), Clean(2)]);
    TwoConnected(r);
    SecondIdIsHeld(r.states[2]);
    GoodNext(r, 2);
    CollisionStep(r.states[2]);
    TwoSteps(r, 2);
    TwoSteps(r, 4);
  }

  lemma TwoSteps(r: Run, k: nat)
    requires r.Valid() && k + 2 <= |r.events|
    ensures r.states[k + 2] == Next(Next(r.states[k], r.events[k]), r.events[k + 1])
  {
    assert r.Linked(k) && r.Linked(k + 1);
  }

  lemma SilentStep(s: Sys)
    requires Informed(s) && s.dev.conns == [FIRST, SECOND]
    requires s.open == map[1 := Conn(U128(0, 5), false), 2 := Conn(U128(0, 3), false)]
    ensures var e := Arbitrate(1, U128(0, 7)); !Collides(s, e) && !Informed(Next(s, e))
  {
    var e := Arbitrate(1, U128(0, 7));
    assert !Held(s.dev.conns, e.id);
    assert s.dev.conns[0] == FIRST;
    assert SilentMasterChange(s.dev, FIRST, e.id);
    StepKeepsInformedIff(s, e);
  }

  /** A run after which a client has the wrong election id for the master. */
  lemma StaleRun() returns (r: Run)
    ensures r.Valid() && r.events == [Arbitrate(1, U128(0, 5)), Arbitrate(2, U128(0, 3)), Arbitrate(1, U128(0, 7))]
    ensures CollisionFree(r, 3) && !Informed(r.states[3]) && IsMasterId(r.states[3].dev, U128(0, 7))
    ensures LastTold(r.states[3].dev.log, 2).Some? && LastTold(r.states[3].dev.log, 2).value.masterId == U128(0, 5)
  {
    r := RunExists([Arbitrate(1, U128(0, 5)), Arbitrate(2, U128(0, 3)), Arbitrate(1, U128(0, 7))]);
    TwoConnected(r);
    assert r.Linked(2);
    SilentStep(r.states[2]);
    StaleMasterId(r.states[2]);
  }
}
