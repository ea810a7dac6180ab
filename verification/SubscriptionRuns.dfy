/**
 Whole runs of a Subscribe stream (SubscriptionStreamMgr in proto/server/gnmi_sysrepo.cpp): lists
 of subscriptions of any modes are added, with or without updates_only, and the timer passes over
 them; scans may fail. Exactly when does the client agree with the datastore at a path?
 */
module SubscriptionRuns {
  import opened Basics
  import opened Subscription
  import opened SubscriptionMgr
  import opened SubscriptionPath

  // -------------------------------------------------------------------- runs

  type Store = map<Path, Value>

  datatype State = State(subs: seq<Sub>, stream: seq<Message>)

  datatype Event =
    | Add(ws: seq<Wanted>, updatesOnly: bool)
    | Pass(scans: seq<Option<Tick>>, store: Store)   // a scan per subscription, all of one snapshot

  function Next(st: State, e: Event): State {
    match e
    case Add(ws, updatesOnly) =>
      var (_, subs, stream) := AddList(ws, updatesOnly, st.subs, st.stream);
      State(subs, stream)
    case Pass(scans, _) =>
      if |scans| != |st.subs| then st
      else
        var (subs, written) := PassOver(st.subs, scans);
        State(subs, st.stream + written)
  }

  function After(es: seq<Event>): State {
    if es == [] then State([], []) else Next(After(es[..|es| - 1]), es[|es| - 1])
  }

  function Lookup(store: Store, p: Path): Option<Value> {
    if p in store then Some(store[p]) else None
  }

  /** A scan through a subscription's XPath shows the path if it selects it, with the value it has. */
  ghost predicate ScanFits(scan: Option<Tick>, selects: iset<Path>, v: Option<Value>, p: Path) {
    WellScanned(scan) && (scan.Some? ==> Scanned(scan.value.items, p) == if p in selects then v else None)
  }

  ghost predicate ScansFit(subs: seq<Sub>, scans: seq<Option<Tick>>, v: Option<Value>, p: Path)
    requires |subs| == |scans|
    decreases |subs|
  {
    subs == [] || (ScanFits(scans[0], subs[0].selects, v, p) && ScansFit(subs[1..], scans[1..], v, p))
  }

  /** First scans may each read a snapshot of their own. */
  ghost predicate FirstFits(w: Wanted, p: Path) {
    WellScanned(w.first) && (w.first.Some? && Scanned(w.first.value.items, p).Some? ==> p in w.selects)
  }

  ghost predicate FirstsFit(ws: seq<Wanted>, p: Path) {
    ws == [] || (FirstFits(ws[0], p) && FirstsFit(ws[1..], p))
  }

  ghost predicate StepIsFaithful(st: State, e: Event, p: Path) {
    match e
    case Add(ws, _) => FirstsFit(ws, p)
    case Pass(scans, store) => |scans| == |st.subs| && ScansFit(st.subs, scans, Lookup(store, p), p)
  }

  /** The scans of a run show what is there. */
  ghost predicate Faithful(es: seq<Event>, p: Path) {
    es == [] || (Faithful(es[..|es| - 1], p) && StepIsFaithful(After(es[..|es| - 1]), es[|es| - 1], p))
  }

  // ------------------------------------------------------------------ anchors

  /**
   Which subscription can be relied on at the path: the last that joined, selecting the path and
   sending its first scan, if it is ON_CHANGE and none of its own scans has failed since.
   */
  function AnchorJoin(w: Wanted, updatesOnly: bool, n: nat, anchor: Option<nat>, p: Path): Option<nat> {
    if updatesOnly || p !in w.selects then anchor else if w.cfg.mode.OnChange? then Some(n) else None
  }

  function AnchorList(ws: seq<Wanted>, updatesOnly: bool, n: nat, anchor: Option<nat>, p: Path): Option<nat>
    decreases |ws|
  {
    if ws == [] || StatusOf(ws[0]) != Ok then anchor
    else AnchorList(ws[1..], updatesOnly, n + 1, AnchorJoin(ws[0], updatesOnly, n, anchor, p), p)
  }

  function Anchor(es: seq<Event>, p: Path): Option<nat> {
    if es == [] then None
    else
      var before := Anchor(es[..|es| - 1], p);
      match es[|es| - 1]
      case Add(ws, updatesOnly) => AnchorList(ws, updatesOnly, |After(es[..|es| - 1]).subs|, before, p)
      case Pass(scans, _) =>
        if before.Some? && before.value < |scans| && scans[before.value].None? then None else before
  }

  ghost predicate Anchored(st: State, anchor: Option<nat>, p: Path) {
    anchor.Some? ==>
      && anchor.value < |st.subs| && p in st.subs[anchor.value].selects
      && Tracks(At(st.subs[anchor.value], p), Held(st.stream, p))
  }

  lemma JoinKeepsAnchor(subs: seq<Sub>, stream: seq<Message>, w: Wanted, updatesOnly: bool, anchor: Option<nat>, p: Path)
    requires Anchored(State(subs, stream), anchor, p) && FirstFits(w, p) && StatusOf(w) == Ok
    ensures Anchored(State(subs + [Started(w)], stream + FirstMessages(w, updatesOnly)),
                     AnchorJoin(w, updatesOnly, |subs|, anchor, p), p)
  {
    ScanOneLooks(Sub(w.cfg, w.selects, map[]), w.first, stream, p);
    assert updatesOnly ==> stream + FirstMessages(w, updatesOnly) == stream;
  }

  lemma {:induction false} AddKeepsAnchor(ws: seq<Wanted>, updatesOnly: bool, subs: seq<Sub>, stream: seq<Message>, anchor: Option<nat>, p: Path)
    requires Anchored(State(subs, stream), anchor, p) && FirstsFit(ws, p)
    ensures var (_, subs', stream') := AddList(ws, updatesOnly, subs, stream);
      Anchored(State(subs', stream'), AnchorList(ws, updatesOnly, |subs|, anchor, p), p)
    decreases |ws|
  {
    if ws == [] {
      HeldAfterSync(stream, p);
    } else if StatusOf(ws[0]) == Ok {
      JoinKeepsAnchor(subs, stream, ws[0], updatesOnly, anchor, p);
      AddKeepsAnchor(ws[1..], updatesOnly, subs + [Started(ws[0])], stream + FirstMessages(ws[0], updatesOnly),
                     AnchorJoin(ws[0], updatesOnly, |subs|, anchor, p), p);
    }
  }

  lemma {:induction false} ScansFitMeans(subs: seq<Sub>, scans: seq<Option<Tick>>, v: Option<Value>, p: Path)
    requires |subs| == |scans| && ScansFit(subs, scans, v, p)
    ensures AllWellScanned(scans)
    ensures if v.Some? then AllSee(Glances(scans, p), v.value) else NoneSees(Glances(scans, p))
    decreases |subs|
  {
    if subs != [] {
      ScansFitMeans(subs[1..], scans[1..], v, p);
      ViewsTail(subs, scans, p);
    }
  }

  lemma {:induction false} ScanFitsAt(subs: seq<Sub>, scans: seq<Option<Tick>>, v: Option<Value>, p: Path, k: nat)
    requires |subs| == |scans| && ScansFit(subs, scans, v, p) && k < |subs|
    ensures ScanFits(scans[k], subs[k].selects, v, p)
    decreases k
  {
    if k > 0 { ScanFitsAt(subs[1..], scans[1..], v, p, k - 1); }
  }

  /** A pass in which the anchor scans: the client has the value, and the anchor still tracks it. */
  lemma PassKeepsAnchor(st: State, scans: seq<Option<Tick>>, store: Store, k: nat, p: Path)
    requires StepIsFaithful(st, Pass(scans, store), p) && Anchored(st, Some(k), p) && scans[k].Some?
    ensures var st' := Next(st, Pass(scans, store));
      Anchored(st', Some(k), p) && (p in store ==> Held(st'.stream, p) == Some(store[p]))
  {
    var v, views, gs := Lookup(store, p), Views(st.subs, p), Glances(scans, p);
    var subs' := PassOver(st.subs, scans).0;
    ScansFitMeans(st.subs, scans, v, p);
    ScanFitsAt(st.subs, scans, v, p, k);
    PassIsPassAt(st.subs, scans, st.stream, p);
    PassKeepsShape(st.subs, scans);
    ViewsAt(st.subs, p, k);
    ViewsAt(subs', p, k);
    GlancesAt(scans, p, k);
    if v.Some? {
      PassKeepsTracking(views, gs, Held(st.stream, p), v.value, k);
    } else {
      BlindPass(views, gs, Held(st.stream, p));
    }
  }

  lemma {:induction false} AlwaysAnchored(es: seq<Event>, p: Path)
    requires Faithful(es, p)
    ensures Anchored(After(es), Anchor(es, p), p)
  {
    if es != [] {
      var before, e := es[..|es| - 1], es[|es| - 1];
      AlwaysAnchored(before, p);
      var st, anchor := After(before), Anchor(before, p);
      match e {
        case Add(ws, updatesOnly) => AddKeepsAnchor(ws, updatesOnly, st.subs, st.stream, anchor, p);
        case Pass(scans, store) =>
          if anchor.Some? && scans[anchor.value].Some? {
            PassKeepsAnchor(st, scans, store, anchor.value, p);
          }
      }
    }
  }

  /**
   Replica agreement at a path, over every run and whatever the modes of the subscriptions, with
   other scans free to fail: after a timer pass the client holds the datastore's value there, if
   the path has an anchor.
   */
  lemma ManagerAgreement(es: seq<Event>, p: Path)
    requires es != [] && es[|es| - 1].Pass? && Faithful(es, p)
    requires Anchor(es, p).Some? && p in es[|es| - 1].store
    ensures Held(After(es).stream, p) == Some(es[|es| - 1].store[p])
  {
    var before, e := es[..|es| - 1], es[|es| - 1];
    AlwaysAnchored(before, p);
    PassKeepsAnchor(After(before), e.scans, e.store, Anchor(before, p).value, p);
  }

  /** And in one pass, from any state: exactly if it did before, or some subscription is due to send it. */
  lemma OnePassAgreesIff(st: State, scans: seq<Option<Tick>>, store: Store, p: Path)
    requires StepIsFaithful(st, Pass(scans, store), p) && p in store
    ensures Held(Next(st, Pass(scans, store)).stream, p) == Some(store[p]) <==>
            Held(st.stream, p) == Some(store[p]) || SomeSends(Views(st.subs, p), Glances(scans, p))
  {
    ScansFitMeans(st.subs, scans, Lookup(store, p), p);
    PassIsPassAt(st.subs, scans, st.stream, p);
    PassAgreesIff(Views(st.subs, p), Glances(scans, p), Held(st.stream, p), store[p]);
  }

  // ------------------------------------------------------------- no empty message

  ghost predicate NoneEmpty(ms: seq<Message>) {
    forall i :: 0 <= i < |ms| && ms[i].Notification? ==> ms[i].updates != []
  }

  lemma {:induction false} PassWritesNoneEmpty(subs: seq<Sub>, scans: seq<Option<Tick>>)
    requires |subs| == |scans|
    ensures NoneEmpty(PassOver(subs, scans).1)
    decreases |subs|
  {
    if subs != [] { PassWritesNoneEmpty(subs[1..], scans[1..]); }
  }

  lemma {:induction false} AddWritesNoneEmpty(ws: seq<Wanted>, updatesOnly: bool, subs: seq<Sub>, stream: seq<Message>)
    requires NoneEmpty(stream)
    ensures NoneEmpty(AddList(ws, updatesOnly, subs, stream).2)
    decreases |ws|
  {
    if ws != [] && StatusOf(ws[0]) == Ok {
      AddWritesNoneEmpty(ws[1..], updatesOnly, subs + [Started(ws[0])], stream + FirstMessages(ws[0], updatesOnly));
    }
  }

  /** Over every run no notification without an update is written. */
  lemma {:induction false} NoEmptyNotification(es: seq<Event>)
    ensures NoneEmpty(After(es).stream)
  {
    if es != [] {
      var before, e := es[..|es| - 1], es[|es| - 1];
      NoEmptyNotification(before);
      var st := After(before);
      match e {
        case Add(ws, updatesOnly) => AddWritesNoneEmpty(ws, updatesOnly, st.subs, st.stream);
        case Pass(scans, _) => if |scans| == |st.subs| { PassWritesNoneEmpty(st.subs, scans); }
      }
    }
  }
}
