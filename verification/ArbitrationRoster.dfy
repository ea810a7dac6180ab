/**
 What the arbitration machine comes to, told from the events alone (proto/server/pi_server.cpp):
 which streams hold a connection, with which election id, and who is sent what.
 */
module ArbitrationRoster {
  import opened Basics
  import opened WideInt
  import opened DeviceSpec
  import opened Arbitration

  // ------------------------------------------------------------- connections

  type Roster = map<Stream, Conn>

  ghost predicate Taken(m: Roster, id: U128) {
    exists t :: t in m && m[t].id == id
  }

  /** What the clients may rely on, event by event: a connection has the id it last asked for. */
  ghost function Enrol(m: Roster, e: Event): Roster {
    match e
    case Arbitrate(st, id) =>
      if st !in m then (if |m| < 16 && !Taken(m, id) then m[st := Conn(id, false)] else m)
      else if m[st].closing then m
      else m[st := Conn(id, false)]
    case Close(st) => if st in m then m[st := Conn(m[st].id, true)] else m
    case Clean(st) => if st in m && m[st].closing then m - {st} else m
    case _ => m
  }

  ghost function RosterOf(es: seq<Event>): Roster {
    if es == [] then map[] else Enrol(RosterOf(es[..|es| - 1]), es[|es| - 1])
  }

  /** An open stream asks for the id of another. */
  ghost predicate Clashes(m: Roster, e: Event) {
    e.Arbitrate? && e.s in m && !m[e.s].closing && exists t :: t in m && t != e.s && m[t].id == e.id
  }

  ghost predicate NoClash(es: seq<Event>) {
    es == [] || (NoClash(es[..|es| - 1]) && !Clashes(RosterOf(es[..|es| - 1]), es[|es| - 1]))
  }

  /** The streams of a set of connections. */
  ghost function StreamsOf(es: seq<Entry>): set<Stream> {
    if es == [] then {} else StreamsOf(es[..|es| - 1]) + {es[|es| - 1].stream}
  }

  lemma {:induction false} InStreamsOf(es: seq<Entry>, st: Stream)
    ensures st in StreamsOf(es) <==> exists i :: 0 <= i < |es| && es[i].stream == st
  {
    if es != [] {
      var n := |es| - 1;
      InStreamsOf(es[..n], st);
      if st in StreamsOf(es[..n]) {
        var i :| 0 <= i < |es[..n]| && es[..n][i].stream == st;
        assert es[i].stream == st;
      }
      if i :| 0 <= i < |es| && es[i].stream == st {
        if i < n { assert es[..n][i].stream == st; }
      }
    }
  }

  lemma {:induction false} StreamsCount(es: seq<Entry>)
    requires forall i, j :: 0 <= i < j < |es| ==> es[i].stream != es[j].stream
    ensures |StreamsOf(es)| == |es|
  {
    if es != [] {
      var n := |es| - 1;
      StreamsCount(es[..n]);
      InStreamsOf(es[..n], es[n].stream);
    }
  }

  lemma DistinctStreams(es: seq<Entry>)
    requires Descending(es) && StreamsUnique(es)
    ensures forall i, j :: 0 <= i < j < |es| ==> es[i].stream != es[j].stream
  {
    forall i, j | 0 <= i < j < |es| ensures es[i].stream != es[j].stream {
      assert es[i].id.Greater(es[j].id);
      assert es[i] in es && es[j] in es;
    }
  }

  /** The set has as many connections as there are open streams. */
  lemma AsManyAsOpen(s: Sys)
    requires Good(s)
    ensures |s.open| == |s.dev.conns|
  {
    var es := s.dev.conns;
    DistinctStreams(es);
    StreamsCount(es);
    forall st ensures st in StreamsOf(es) <==> st in s.open {
      InStreamsOf(es, st);
      if st in s.open {
        var i :| 0 <= i < |es| && es[i] == Entry(st, s.open[st].id);
      }
      if i :| 0 <= i < |es| && es[i].stream == st {
        assert es[i] in es;
      }
    }
    assert StreamsOf(es) == s.open.Keys;
  }

  lemma HeldIsTaken(s: Sys, id: U128)
    requires Registered(s)
    ensures Held(s.dev.conns, id) <==> Taken(s.open, id)
  {
    var es := s.dev.conns;
    if Held(es, id) {
      var i :| 0 <= i < |es| && es[i].id == id;
      assert es[i] in es;
      assert es[i].stream in s.open;
    }
    if Taken(s.open, id) {
      var t :| t in s.open && s.open[t].id == id;
      var i :| 0 <= i < |es| && es[i] == Entry(t, id);
    }
  }

  lemma CollidesIffClashes(s: Sys, e: Event)
    requires Good(s)
    ensures Collides(s, e) <==> Clashes(s.open, e)
  {
    if e.Arbitrate? && e.s in s.open {
      HeldIsTaken(s, e.id);
      if s.open[e.s].id == e.id { OwnIdIsOwn(s, e.s, e.id); }
    }
  }

  /** No two open streams hold one id. */
  lemma OwnIdIsOwn(s: Sys, st: Stream, id: U128)
    requires Good(s) && st in s.open && s.open[st].id == id
    ensures forall t :: t in s.open && t != st ==> s.open[t].id != id
  {
    forall t | t in s.open && t != st ensures s.open[t].id != id {
      var es := s.dev.conns;
      var i :| 0 <= i < |es| && es[i] == Entry(st, id);
      var j :| 0 <= j < |es| && es[j] == Entry(t, s.open[t].id);
      assert if i < j then es[i].id.Greater(es[j].id) else es[j].id.Greater(es[i].id);
    }
  }

  /** An arbitration that is accepted, the first of a stream or a later one, gives the stream the id it asks for. */
  lemma ArbitrateEnrols(s: Sys, st: Stream, id: U128)
    requires Good(s) && !Collides(s, Arbitrate(st, id))
    ensures ArbitrateStep(s, st, id).open == Enrol(s.open, Arbitrate(st, id))
  {
    if st !in s.open {
      AsManyAsOpen(s);
      HeldIsTaken(s, id);
      AddKeepsSound(s.dev, Entry(st, id));
    } else if !s.open[st].closing && s.open[st].id != id {
      UpdateKeepsSound(s.dev, Entry(st, s.open[st].id), id);
    }
  }

  lemma CleanEnrols(s: Sys, st: Stream)
    requires Good(s)
    ensures CleanStep(s, st).open == Enrol(s.open, Clean(st))
  {
    if st in s.open && s.open[st].closing {
      CleanupKeepsSound(s.dev, Entry(st, s.open[st].id));
    }
  }

  lemma StepEnrols(s: Sys, e: Event)
    requires Good(s) && !Collides(s, e)
    ensures Next(s, e).open == Enrol(s.open, e)
  {
    match e
    case Arbitrate(st, id) => ArbitrateEnrols(s, st, id);
    case Clean(st) => CleanEnrols(s, st);
    case _ =>
  }

  lemma RosterNext(r: Run, k: nat)
    requires r.Valid() && k < |r.events| && CollisionFree(r, k) && r.states[k].open == RosterOf(r.events[..k])
    ensures Collides(r.states[k], r.events[k]) <==> Clashes(RosterOf(r.events[..k]), r.events[k])
    ensures !Collides(r.states[k], r.events[k]) ==> r.states[k + 1].open == RosterOf(r.events[..k + 1])
  {
    var es := r.events[..k + 1];
    assert es[..|es| - 1] == r.events[..k] && es[|es| - 1] == r.events[k];
    assert r.Linked(k);
    RunGoodIff(r, k);
    CollidesIffClashes(r.states[k], r.events[k]);
    if !Collides(r.states[k], r.events[k]) { StepEnrols(r.states[k], r.events[k]); }
  }

  lemma FreeNext(r: Run, k: nat)
    requires r.Valid() && k < |r.events|
    ensures CollisionFree(r, k + 1) <==> CollisionFree(r, k) && !Collides(r.states[k], r.events[k])
  {
  }

  lemma NoClashNext(r: Run, k: nat)
    requires r.Valid() && k < |r.events|
    ensures NoClash(r.events[..k + 1]) <==> NoClash(r.events[..k]) && !Clashes(RosterOf(r.events[..k]), r.events[k])
  {
    var es := r.events[..k + 1];
    assert es[..|es| - 1] == r.events[..k] && es[|es| - 1] == r.events[k];
  }

  /**
   Over every run: it is free of collisions exactly if its events say so, and then every stream
   holds a connection exactly if it was admitted and has not been cleaned up, with the election
   id it last asked for.
   */
  lemma {:induction false} OpenIsRoster(r: Run, k: nat)
    requires r.Valid() && k <= |r.events|
    ensures CollisionFree(r, k) <==> NoClash(r.events[..k])
    ensures CollisionFree(r, k) ==> r.states[k].open == RosterOf(r.events[..k])
  {
    if k > 0 {
      OpenIsRoster(r, k - 1);
      FreeNext(r, k - 1);
      NoClashNext(r, k - 1);
      if CollisionFree(r, k - 1) { RosterNext(r, k - 1); }
    }
  }

  /** The election id of a stream is the greatest of all that hold a connection. */
  ghost predicate Leads(m: Roster, st: Stream) {
    st in m && forall t :: t in m ==> m[t].id.Value() <= m[st].id.Value()
  }

  /**
   What the clients are told, from the events alone: while no stream asks for the id of another,
   no assertion fails, and every stream that holds a connection was last told it is the master
   exactly if the id it last asked for is the greatest.
   */
  lemma RolesFromEvents(r: Run, k: nat, st: Stream)
    requires r.Valid() && k <= |r.events| && NoClash(r.events[..k])
    ensures var m, log := RosterOf(r.events[..k]), r.states[k].dev.log;
      !r.states[k].crashed &&
      (st in m ==> LastTold(log, st).Some? && (LastTold(log, st).value.isMaster <==> Leads(m, st)))
  {
    OpenIsRoster(r, k);
    RoleAgreement(r, k, st);
  }

  // ---------------------------------------------------------------- messages

  /** Everyone is told, first to last, of the first one's id, and the first that it is the master. */
  ghost function TellAll(es: seq<Entry>): seq<Sent> {
    seq(|es|, i requires 0 <= i < |es| => Sent(es[i].stream, Msg.Arbitration(es[0].id, i == 0)))
  }

  ghost predicate SameMaster(es: seq<Entry>, es': seq<Entry>) {
    if es == [] || es' == [] then es == es' else es[0].stream == es'[0].stream
  }

  /** What an event adds to what the clients were sent, by the connections before and after it. */
  ghost function News(es: seq<Entry>, es': seq<Entry>, e: Event): seq<Sent> {
    if e.PacketFromDevice? then (if es == [] then [] else [Sent(es[0].stream, PacketIn)])
    else if !SameMaster(es, es') then TellAll(es')
    else if e.Arbitrate? && es != es' && es' != [] then [Sent(e.s, Msg.Arbitration(es'[0].id, es'[0].stream == e.s))]
    else []
  }

  lemma {:induction false} NotifyFirstTells(es: seq<Entry>, log: seq<Sent>, n: nat)
    requires n <= |es| && Descending(es) && StreamsUnique(es)
    ensures NotifyFirst(es, log, n) == log + TellAll(es)[..n]
  {
    if n > 0 {
      NotifyFirstTells(es, log, n - 1);
      DistinctStreams(es);
      assert Notice(es, es[n - 1]) == TellAll(es)[n - 1];
      assert TellAll(es)[..n] == TellAll(es)[..n - 1] + [TellAll(es)[n - 1]];
    }
  }

  lemma NotifyAllTells(es: seq<Entry>, log: seq<Sent>)
    requires Descending(es) && StreamsUnique(es)
    ensures NotifyAll(es, log) == log + TellAll(es)
  {
    NotifyFirstTells(es, log, |es|);
    assert TellAll(es)[..|es|] == TellAll(es);
  }

  lemma AddTells(d: Device, e: Entry)
    requires Sound(d) && forall x :: x in d.conns ==> x.stream != e.stream
    ensures var d' := Add(d, e).0; d'.log == d.log + News(d.conns, d'.conns, Arbitrate(e.stream, e.id))
  {
    AddKeepsSound(d, e);
    if |d.conns| < MAX_CONNECTIONS && Find(d.conns, e.id).None? {
      InsertKeepsOrder(d.conns, e);
      var es' := Insert(d.conns, e);
      if d.conns != [] { assert d.conns[0] in d.conns; }
      if Position(d.conns, e.id) == 0 { NotifyAllTells(es', d.log); }
    } else {
      NoMore(d.log);
    }
  }

  lemma UpdateTells(d: Device, e: Entry, newId: U128)
    requires Sound(d) && e in d.conns && !Held(d.conns, newId)
    ensures Find(d.conns, e.id).Some?
    ensures var d' := Update(d, e, newId).0; d'.log == d.log + News(d.conns, d'.conns, Arbitrate(e.stream, newId))
  {
    FindOwn(d.conns, e);
    EntryMoved(d.conns, e, newId);
    UpdateMoves(d, e, newId);
    var es, es', e' := d.conns, Update(d, e, newId).0.conns, Entry(e.stream, newId);
    MovedMaster(es, es', e, e');
    MoveTells(es, es', d.log, e, e');
  }

  lemma MoveTells(es: seq<Entry>, es': seq<Entry>, log: seq<Sent>, e: Entry, e': Entry)
    requires Descending(es') && StreamsUnique(es') && es != [] && es' != [] && es != es' && e'.stream == e.stream
    requires SameMaster(es, es') <==> (e' == es'[0]) == (e == es[0])
    ensures (if (e' == es'[0]) != (e == es[0]) then NotifyAll(es', log) else log + [Notice(es', e')]) ==
            log + News(es, es', Arbitrate(e.stream, e'.id))
  {
    NotifyAllTells(es', log);
  }

  lemma MovedMaster(es: seq<Entry>, es': seq<Entry>, e: Entry, e': Entry)
    requires StreamsUnique(es) && StreamsUnique(es') && e in es && |es'| == |es| && e'.stream == e.stream && e.id != e'.id
    requires (forall x :: x in es' <==> (x in es && x != e) || x == e') && (e != es[0] && es'[0] != e' ==> es'[0] == es[0])
    requires !Held(es, e'.id)
    ensures es != es' && (SameMaster(es, es') <==> (e' == es'[0]) == (e == es[0]))
    ensures es'[0].stream == e.stream <==> e' == es'[0]
  {
    assert es[0] in es && es'[0] in es' && e' in es';
    var i :| 0 <= i < |es'| && es'[i] == e';
    assert es[i].id != e'.id;
  }

  lemma CleanupTells(d: Device, e: Entry)
    requires Sound(d) && e in d.conns
    ensures Find(d.conns, e.id).Some?
    ensures var d' := Cleanup(d, e); d'.log == d.log + News(d.conns, d'.conns, Clean(e.stream))
  {
    CleanupKeepsSound(d, e);
    FindOwn(d.conns, e);
    var at := Find(d.conns, e.id).value;
    var rest := Remove(d.conns, at);
    RemoveKeepsOrder(d.conns, at);
    FirstIsSelf(d.conns, e, at);
    if at == 0 {
      if rest != [] { assert rest[0] in rest && rest[0] in d.conns; }
      NotifyAllTells(rest, d.log);
      NoMore(d.log);
    } else {
      assert rest != [];
      NoMore(d.log);
    }
  }

  /** One step that does not collide sends exactly this. */
  lemma StepTells(s: Sys, e: Event)
    requires Good(s) && !Collides(s, e)
    ensures Next(s, e).dev.log == s.dev.log + News(s.dev.conns, Next(s, e).dev.conns, e)
  {
    NoMore(s.dev.log);
    match e
    case Arbitrate(st, id) =>
      if st !in s.open {
        AddTells(s.dev, Entry(st, id));
      } else if !s.open[st].closing && s.open[st].id != id {
        UpdateTells(s.dev, Entry(st, s.open[st].id), id);
      }
    case Clean(st) =>
      if st in s.open && s.open[st].closing { CleanupTells(s.dev, Entry(st, s.open[st].id)); }
    case PacketFromDevice(_) =>
    case _ => QuietStep(s, e);
  }

  /** All that the first k events send. */
  ghost function AllNews(r: Run, k: nat): seq<Sent>
    requires k <= |r.events| < |r.states|
  {
    if k == 0 then [] else AllNews(r, k - 1) + News(r.states[k - 1].dev.conns, r.states[k].dev.conns, r.events[k - 1])
  }

  lemma TellsNext(r: Run, k: nat)
    requires r.Valid() && k < |r.events| && CollisionFree(r, k + 1)
    ensures r.states[k + 1].dev.log == r.states[k].dev.log + News(r.states[k].dev.conns, r.states[k + 1].dev.conns, r.events[k])
  {
    FreeNext(r, k);
    RunGoodIff(r, k);
    assert r.Linked(k);
    StepTells(r.states[k], r.events[k]);
  }

  /**
   Over every run without collisions the clients are sent exactly this: everyone, when another
   stream becomes master; the stream itself, when it comes in or takes
   another id without that; and packet-ins.
   */
  lemma {:induction false} LogIsNews(r: Run, k: nat)
    requires r.Valid() && k <= |r.events| && CollisionFree(r, k)
    ensures r.states[k].dev.log == AllNews(r, k)
  {
    if k > 0 {
      FreeNext(r, k - 1);
      LogIsNews(r, k - 1);
      TellsNext(r, k - 1);
    }
  }

  /** And a collision itself tells nobody. */
  lemma CollisionTellsNobody(s: Sys, e: Event)
    requires Good(s) && Collides(s, e)
    ensures Next(s, e).dev.log == s.dev.log
  {
    OwnEntryErased(s.dev.conns, Entry(e.s, s.open[e.s].id), e.id);
  }
}
