/**
 What the subscriptions on one stream (SubscriptionStreamMgr in proto/server/gnmi_sysrepo.cpp) do
 at a single path: whether a scan sends it, and what the client ends up holding there. Any modes.
 */
module SubscriptionPath {
  import opened Basics
  import opened Subscription
  import opened SubscriptionMgr

  // ------------------------------------------------------------- the client

  /** The last of some updates to a path. */
  function LastUpdate(us: seq<Update>, p: Path): Option<Value> {
    if us == [] then None
    else if us[|us| - 1].path == p then Some(us[|us| - 1].v)
    else LastUpdate(us[..|us| - 1], p)
  }

  lemma {:induction false} ReplayAt(replica: map<Path, Value>, us: seq<Update>, p: Path)
    ensures var r := Replay(replica, us);
            match LastUpdate(us, p)
            case Some(v) => p in r && r[p] == v
            case None => (p in r <==> p in replica) && (p in r ==> r[p] == replica[p])
  {
    if us != [] { ReplayAt(replica, us[..|us| - 1], p); }
  }

  /** What a client that applies every notification in order holds. */
  function Client(stream: seq<Message>): map<Path, Value> {
    if stream == [] then map[]
    else
      var before := Client(stream[..|stream| - 1]);
      match stream[|stream| - 1]
      case Notification(us) => Replay(before, us)
      case SyncResponse => before
  }

  /** What it holds at a path. */
  function Held(stream: seq<Message>, p: Path): Option<Value> {
    if p in Client(stream) then Some(Client(stream)[p]) else None
  }

  function OrBefore(sent: Option<Value>, before: Option<Value>): Option<Value> {
    if sent.Some? then sent else before
  }

  lemma HeldAfter(stream: seq<Message>, us: seq<Update>, p: Path)
    ensures Held(stream + [Notification(us)], p) == OrBefore(LastUpdate(us, p), Held(stream, p))
  {
    var all := stream + [Notification(us)];
    assert all[..|all| - 1] == stream;
    ReplayAt(Client(stream), us, p);
  }

  lemma HeldAfterSync(stream: seq<Message>, p: Path)
    ensures Held(stream + [SyncResponse], p) == Held(stream, p)
  {
    var all := stream + [SyncResponse];
    assert all[..|all| - 1] == stream;
  }

  // ------------------------------------------------- one subscription at one path

  /** A subscription's settings and its cache there. */
  datatype View = View(cfg: Settings, last: Option<Stored>)

  function At(s: Sub, p: Path): View {
    View(s.cfg, if p in s.cache then Some(s.cache[p]) else None)
  }

  /** A scan that shows the path with a value, or not at all: the cache then, and the update sent. */
  function Look(view: View, seen: Option<Value>, now: Time): (View, Option<Value>) {
    match seen
    case None => (view, None)
    case Some(v) =>
      var changed := view.last.None? || view.last.value.v != v;
      var lastSent := if view.last.None? then 0 else view.last.value.lastSent;
      if Due(view.cfg, changed, now, lastSent) then (view.(last := Some(Stored(v, now))), Some(v))
      else if view.last.None? then (view.(last := Some(Stored(v, 0))), None)
      else (view, None)
  }

  /** A scan has at most one set leaf at a path. */
  ghost predicate OnceEach(items: seq<Item>) {
    forall i, j :: 0 <= i < j < |items| && Counts(items[i]) && Counts(items[j]) ==> items[i].path != items[j].path
  }

  lemma {:induction false} NotScanned(items: seq<Item>, p: Path)
    requires forall i :: 0 <= i < |items| && Counts(items[i]) ==> items[i].path != p
    ensures Scanned(items, p).None?
  {
    if items != [] { NotScanned(items[..|items| - 1], p); }
  }

  lemma VisitLooks(cfg: Settings, cache: Cache, item: Item, now: Time, p: Path)
    ensures var (cache', due) := Visit(cfg, cache, item, now);
      var seen := if Counts(item) && item.path == p then Some(item.v) else None;
      var (view, sent) := Look(At(Sub(cfg, iset{}, cache), p), seen, now);
      At(Sub(cfg, iset{}, cache'), p) == view && (due && item.path == p <==> sent.Some?)
  {
  }

  lemma LastUpdateAppend(us: seq<Update>, u: Update, p: Path)
    ensures LastUpdate(us + [u], p) == if u.path == p then Some(u.v) else LastUpdate(us, p)
  {
    assert (us + [u])[..|us + [u]| - 1] == us;
  }

  /** A scan does to a path what looking at it does. */
  lemma {:induction false} ScanLooks(cfg: Settings, cache: Cache, items: seq<Item>, now: Time, p: Path)
    requires OnceEach(items)
    ensures var (cache', us) := Scan(cfg, cache, items, now);
      Look(At(Sub(cfg, iset{}, cache), p), Scanned(items, p), now) == (At(Sub(cfg, iset{}, cache'), p), LastUpdate(us, p))
  {
    if items != [] {
      var n := |items| - 1;
      var item := items[n];
      var (c, us) := Scan(cfg, cache, items[..n], now);
      ScanLooks(cfg, cache, items[..n], now, p);
      VisitLooks(cfg, c, item, now, p);
      LastUpdateAppend(us, Update(item.path, item.v), p);
      if Counts(item) && item.path == p {
        NotScanned(items[..n], p);
      }
    }
  }

  /** What a call of process shows of the path, and when. */
  datatype Glance = Glance(v: Option<Value>, now: Time)

  function GlanceOf(scan: Option<Tick>, p: Path): Glance {
    match scan
    case None => Glance(None, 0)
    case Some(tick) => Glance(Scanned(tick.items, p), tick.now)
  }

  ghost predicate WellScanned(scan: Option<Tick>) {
    scan.Some? ==> OnceEach(scan.value.items)
  }

  /** One call of process, at the path. */
  lemma ScanOneLooks(s: Sub, scan: Option<Tick>, stream: seq<Message>, p: Path)
    requires WellScanned(scan)
    ensures var (s', written) := ScanOne(s, scan);
      var g := GlanceOf(scan, p);
      var (view, sent) := Look(At(s, p), g.v, g.now);
      && At(s', p) == view && s'.selects == s.selects && s'.cfg == s.cfg
      && Held(stream + written, p) == OrBefore(sent, Held(stream, p))
  {
    match scan {
      case None => assert stream + [] == stream;
      case Some(tick) =>
        var (cache, us) := Scan(s.cfg, s.cache, tick.items, tick.now);
        ScanLooks(s.cfg, s.cache, tick.items, tick.now, p);
        if us == [] {
          assert stream + [] == stream;
        } else {
          HeldAfter(stream, us, p);
        }
    }
  }

  // ---------------------------------------------------------- a pass at one path

  function PassAt(views: seq<View>, gs: seq<Glance>, held: Option<Value>): (r: (seq<View>, Option<Value>))
    requires |views| == |gs|
    ensures |r.0| == |views|
  {
    if views == [] then ([], held)
    else
      var (view, sent) := Look(views[0], gs[0].v, gs[0].now);
      var (rest, held') := PassAt(views[1..], gs[1..], OrBefore(sent, held));
      ([view] + rest, held')
  }

  function Views(subs: seq<Sub>, p: Path): (r: seq<View>)
    ensures |r| == |subs|
  {
    if subs == [] then [] else [At(subs[0], p)] + Views(subs[1..], p)
  }

  function Glances(scans: seq<Option<Tick>>, p: Path): (r: seq<Glance>)
    ensures |r| == |scans|
  {
    if scans == [] then [] else [GlanceOf(scans[0], p)] + Glances(scans[1..], p)
  }

  lemma {:induction false} ViewsAt(subs: seq<Sub>, p: Path, k: nat)
    requires k < |subs|
    ensures Views(subs, p)[k] == At(subs[k], p)
    decreases k
  {
    if k > 0 { ViewsAt(subs[1..], p, k - 1); }
  }

  lemma {:induction false} GlancesAt(scans: seq<Option<Tick>>, p: Path, k: nat)
    requires k < |scans|
    ensures Glances(scans, p)[k] == GlanceOf(scans[k], p)
    decreases k
  {
    if k > 0 { GlancesAt(scans[1..], p, k - 1); }
  }

  ghost predicate AllWellScanned(scans: seq<Option<Tick>>) {
    scans == [] || (WellScanned(scans[0]) && AllWellScanned(scans[1..]))
  }

  /** The timer pass is, path by path, the pass above. */
  lemma {:induction false} PassIsPassAt(subs: seq<Sub>, scans: seq<Option<Tick>>, stream: seq<Message>, p: Path)
    requires |subs| == |scans| && AllWellScanned(scans)
    ensures var (subs', written) := PassOver(subs, scans);
      var (views, held) := PassAt(Views(subs, p), Glances(scans, p), Held(stream, p));
      Views(subs', p) == views && Held(stream + written, p) == held
    decreases |subs|
  {
    if subs == [] {
      assert stream + [] == stream;
    } else {
      var (s, now) := ScanOne(subs[0], scans[0]);
      var (rest, later) := PassOver(subs[1..], scans[1..]);
      ScanOneLooks(subs[0], scans[0], stream, p);
      PassIsPassAt(subs[1..], scans[1..], stream + now, p);
      ViewsTail(subs, scans, p);
      ViewsCons(s, rest, p);
      Regroup(stream, now, later);
    }
  }

  lemma ViewsTail(subs: seq<Sub>, scans: seq<Option<Tick>>, p: Path)
    requires subs != [] && scans != []
    ensures Views(subs, p)[0] == At(subs[0], p) && Views(subs, p)[1..] == Views(subs[1..], p)
    ensures Glances(scans, p)[0] == GlanceOf(scans[0], p) && Glances(scans, p)[1..] == Glances(scans[1..], p)
  {
  }

  lemma ViewsCons(s: Sub, rest: seq<Sub>, p: Path)
    ensures Views([s] + rest, p) == [At(s, p)] + Views(rest, p)
  {
    assert ([s] + rest)[1..] == rest;
  }

  /** The same subscriptions, up to their caches. */
  ghost predicate SameShape(a: seq<Sub>, b: seq<Sub>) {
    |a| == |b| && forall k :: 0 <= k < |a| ==> a[k].selects == b[k].selects && a[k].cfg == b[k].cfg
  }

  lemma {:induction false} PassKeepsShape(subs: seq<Sub>, scans: seq<Option<Tick>>)
    requires |subs| == |scans|
    ensures SameShape(subs, PassOver(subs, scans).0)
    decreases |subs|
  {
    if subs != [] { PassKeepsShape(subs[1..], scans[1..]); }
  }

  /** A subscription sends the path. */
  predicate Sends(view: View, g: Glance) {
    Look(view, g.v, g.now).1.Some?
  }

  predicate SomeSends(views: seq<View>, gs: seq<Glance>)
    requires |views| == |gs|
  {
    views != [] && (Sends(views[0], gs[0]) || SomeSends(views[1..], gs[1..]))
  }

  /** All that look at the path in a pass see the same value there. */
  predicate AllSee(gs: seq<Glance>, v: Value) {
    gs == [] || ((gs[0].v.None? || gs[0].v == Some(v)) && AllSee(gs[1..], v))
  }

  predicate NoneSees(gs: seq<Glance>) {
    gs == [] || (gs[0].v.None? && NoneSees(gs[1..]))
  }

  /** After a pass the client holds the value exactly if it did before or some subscription sent it. */
  lemma {:induction false} PassAgreesIff(views: seq<View>, gs: seq<Glance>, held: Option<Value>, v: Value)
    requires |views| == |gs| && AllSee(gs, v)
    ensures PassAt(views, gs, held).1 == Some(v) <==> held == Some(v) || SomeSends(views, gs)
    ensures PassAt(views, gs, held).1 == if SomeSends(views, gs) then Some(v) else held
    decreases |views|
  {
    if views != [] {
      var sent := Look(views[0], gs[0].v, gs[0].now).1;
      PassAgreesIff(views[1..], gs[1..], OrBefore(sent, held), v);
    }
  }

  lemma {:induction false} BlindPass(views: seq<View>, gs: seq<Glance>, held: Option<Value>)
    requires |views| == |gs| && NoneSees(gs)
    ensures PassAt(views, gs, held) == (views, held)
    decreases |views|
  {
    if views != [] {
      BlindPass(views[1..], gs[1..], held);
      assert views == [views[0]] + views[1..];
    }
  }

  lemma {:induction false} PassViewAt(views: seq<View>, gs: seq<Glance>, held: Option<Value>, k: nat)
    requires |views| == |gs| && k < |views|
    ensures PassAt(views, gs, held).0[k] == Look(views[k], gs[k].v, gs[k].now).0
    decreases k
  {
    if k > 0 {
      PassViewAt(views[1..], gs[1..], OrBefore(Look(views[0], gs[0].v, gs[0].now).1, held), k - 1);
    }
  }

  lemma {:induction false} SomeSendsAt(views: seq<View>, gs: seq<Glance>, k: nat)
    requires |views| == |gs| && k < |views| && Sends(views[k], gs[k])
    ensures SomeSends(views, gs)
    decreases k
  {
    if k > 0 { SomeSendsAt(views[1..], gs[1..], k - 1); }
  }

  /** An ON_CHANGE subscription whose cache, if it has the path, has what the client holds. */
  predicate Tracks(view: View, held: Option<Value>) {
    view.cfg.mode.OnChange? && (view.last.Some? ==> held == Some(view.last.value.v))
  }

  /** As long as one that looks tracks the client, a pass leaves the client with the value, and it tracking. */
  lemma PassKeepsTracking(views: seq<View>, gs: seq<Glance>, held: Option<Value>, v: Value, k: nat)
    requires |views| == |gs| && AllSee(gs, v) && k < |views| && gs[k].v == Some(v) && Tracks(views[k], held)
    ensures var (views', held') := PassAt(views, gs, held); held' == Some(v) && Tracks(views'[k], held')
  {
    PassAgreesIff(views, gs, held, v);
    PassViewAt(views, gs, held, k);
    if Sends(views[k], gs[k]) {
      SomeSendsAt(views, gs, k);
    }
  }
}
