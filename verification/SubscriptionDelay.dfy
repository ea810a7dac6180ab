/**
 How long a client can stay behind (proto/server/gnmi_sysrepo.cpp): a subscription that repeats
 itself after some time brings the client up to date at the first pass after that time, whatever
 the other subscriptions on the stream do.
 */
module SubscriptionDelay {
  import opened Basics
  import opened Subscription
  import opened SubscriptionMgr
  import opened SubscriptionPath
  import opened SubscriptionRuns

  /** The time after which a subscription sends again what it scans, changed or not, if there is one. */
  function Patience(cfg: Settings): Option<nat> {
    match cfg.mode
    case Sample => Some(if cfg.suppressRedundant && cfg.heartbeat > cfg.sampleInterval then cfg.heartbeat else cfg.sampleInterval)
    case OnChange => if cfg.heartbeat > 0 then Some(cfg.heartbeat) else None
    case TargetDefined => None
  }

  /** When it last sent the path; 0 if it never did. */
  function LastSent(view: View): Time {
    if view.last.None? then 0 else view.last.value.lastSent
  }

  lemma DueInTime(view: View, g: Glance)
    requires g.v.Some? && Patience(view.cfg).Some? && g.now >= LastSent(view) + Patience(view.cfg).value
    ensures Sends(view, g)
  {
  }

  lemma LookTells(view: View, g: Glance)
    ensures LastSent(Look(view, g.v, g.now).0) == if Sends(view, g) then g.now else LastSent(view)
  {
  }

  /** The pass leaves the client with what the path has, and the subscription scans in it later than t. */
  ghost predicate CatchesUp(st: State, e: Event, k: nat, p: Path, t: nat) {
    && e.Pass? && k < |e.scans| && e.scans[k].Some? && e.scans[k].value.now > t
    && p in e.store && Held(Next(st, e).stream, p) == Some(e.store[p])
  }

  /** The subscription joins, with its first scan later than t. */
  ghost predicate Joins(st: State, e: Event, k: nat, t: nat) {
    && e.Add? && |st.subs| <= k < |Next(st, e).subs| && k < |st.subs| + |e.ws|
    && e.ws[k - |st.subs|].first.Some? && e.ws[k - |st.subs|].first.value.now > t
  }

  /** Event m is one or the other. */
  ghost predicate FreshAt(es: seq<Event>, m: nat, k: nat, p: Path, t: nat)
    requires m < |es|
  {
    CatchesUp(After(es[..m]), es[m], k, p, t) || Joins(After(es[..m]), es[m], k, t)
  }

  ghost predicate OnceFresh(es: seq<Event>, k: nat, p: Path, t: nat) {
    exists m :: 0 <= m < |es| && FreshAt(es, m, k, p, t)
  }

  lemma FreshStays(es: seq<Event>, e: Event, k: nat, p: Path, t: nat)
    requires OnceFresh(es, k, p, t)
    ensures OnceFresh(es + [e], k, p, t)
  {
    var m :| 0 <= m < |es| && FreshAt(es, m, k, p, t);
    assert (es + [e])[..m] == es[..m];
    assert FreshAt(es + [e], m, k, p, t);
  }

  lemma FreshNow(es: seq<Event>, e: Event, k: nat, p: Path, t: nat)
    requires CatchesUp(After(es), e, k, p, t) || Joins(After(es), e, k, t)
    ensures OnceFresh(es + [e], k, p, t)
  {
    assert (es + [e])[..|es|] == es;
    assert FreshAt(es + [e], |es|, k, p, t);
  }

  /** What adding a list puts in the k-th place. */
  lemma {:induction false} AddedAt(ws: seq<Wanted>, updatesOnly: bool, subs: seq<Sub>, stream: seq<Message>, k: nat)
    requires k < |AddList(ws, updatesOnly, subs, stream).1|
    ensures var subs' := AddList(ws, updatesOnly, subs, stream).1;
      if k < |subs| then subs'[k] == subs[k] else k < |subs| + |ws| && subs'[k] == Started(ws[k - |subs|])
    decreases |ws|
  {
    if ws != [] && StatusOf(ws[0]) == Ok {
      AddedAt(ws[1..], updatesOnly, subs + [Started(ws[0])], stream + FirstMessages(ws[0], updatesOnly), k);
    }
  }

  /** A first scan: sent at its time, or not at all. */
  lemma JoinTells(w: Wanted, p: Path)
    requires WellScanned(w.first)
    ensures LastSent(At(Started(w), p)) == 0 || (w.first.Some? && LastSent(At(Started(w), p)) == w.first.value.now)
  {
    var s := Sub(w.cfg, w.selects, map[]);
    ScanOneLooks(s, w.first, [], p);
    LookTells(At(s, p), GlanceOf(w.first, p));
  }

  lemma {:induction false} FirstFitsAt(ws: seq<Wanted>, p: Path, i: nat)
    requires FirstsFit(ws, p) && i < |ws|
    ensures FirstFits(ws[i], p)
    decreases i
  {
    if i > 0 { FirstFitsAt(ws[1..], p, i - 1); }
  }

  /** A pass at one subscription: it sends and the client has the value, or its last sending is as before. */
  lemma PassTells(st: State, scans: seq<Option<Tick>>, store: Store, k: nat, p: Path)
    requires StepIsFaithful(st, Pass(scans, store), p) && k < |st.subs|
    ensures var st' := Next(st, Pass(scans, store));
      && |st'.subs| == |st.subs| && st'.subs[k].selects == st.subs[k].selects && st'.subs[k].cfg == st.subs[k].cfg
      && if Sends(At(st.subs[k], p), GlanceOf(scans[k], p))
         then scans[k].Some? && LastSent(At(st'.subs[k], p)) == scans[k].value.now
              && p in store && Held(st'.stream, p) == Some(store[p])
         else LastSent(At(st'.subs[k], p)) == LastSent(At(st.subs[k], p))
  {
    var views, gs := Views(st.subs, p), Glances(scans, p);
    var subs' := PassOver(st.subs, scans).0;
    ScansFitMeans(st.subs, scans, Lookup(store, p), p);
    ScanFitsAt(st.subs, scans, Lookup(store, p), p, k);
    PassIsPassAt(st.subs, scans, st.stream, p);
    PassKeepsShape(st.subs, scans);
    ViewsAt(st.subs, p, k);
    ViewsAt(subs', p, k);
    GlancesAt(scans, p, k);
    PassViewAt(views, gs, Held(st.stream, p), k);
    LookTells(views[k], gs[k]);
    if Sends(views[k], gs[k]) {
      SomeSendsAt(views, gs, k);
      OnePassAgreesIff(st, scans, store, p);
    }
  }

  /** A list at one subscription: it was there before, or its first scan is what it remembers. */
  lemma AddTells(st: State, ws: seq<Wanted>, updatesOnly: bool, k: nat, p: Path)
    requires FirstsFit(ws, p) && k < |Next(st, Add(ws, updatesOnly)).subs|
    ensures var s := Next(st, Add(ws, updatesOnly)).subs[k];
      if k < |st.subs| then s == st.subs[k]
      else k < |st.subs| + |ws| &&
           (LastSent(At(s, p)) == 0 || (ws[k - |st.subs|].first.Some? && LastSent(At(s, p)) == ws[k - |st.subs|].first.value.now))
  {
    AddedAt(ws, updatesOnly, st.subs, st.stream, k);
    if k >= |st.subs| {
      FirstFitsAt(ws, p, k - |st.subs|);
      JoinTells(ws[k - |st.subs|], p);
    }
  }

  /** A subscription that remembers sending after t did so in this step, or before. */
  lemma StepTells(st: State, e: Event, k: nat, p: Path, t: nat)
    requires StepIsFaithful(st, e, p) && k < |Next(st, e).subs| && LastSent(At(Next(st, e).subs[k], p)) > t
    ensures CatchesUp(st, e, k, p, t) || Joins(st, e, k, t) || (k < |st.subs| && LastSent(At(st.subs[k], p)) > t)
  {
    match e
    case Add(ws, updatesOnly) => AddTells(st, ws, updatesOnly, k, p);
    case Pass(scans, store) => PassTells(st, scans, store, k, p);
  }

  /** What a subscription remembers having sent, the client was up to date with, or it sent when it joined. */
  lemma {:induction false} SentWhenFresh(es: seq<Event>, k: nat, p: Path, t: nat)
    requires Faithful(es, p) && k < |After(es).subs| && LastSent(At(After(es).subs[k], p)) > t
    ensures OnceFresh(es, k, p, t)
    decreases |es|
  {
    var before, e := es[..|es| - 1], es[|es| - 1];
    assert es == before + [e];
    StepTells(After(before), e, k, p, t);
    if CatchesUp(After(before), e, k, p, t) || Joins(After(before), e, k, t) {
      FreshNow(before, e, k, p, t);
    } else {
      SentWhenFresh(before, k, p, t);
      FreshStays(before, e, k, p, t);
    }
  }

  /** A scan of the path that does not send it comes less than the patience after the last that did. */
  lemma NotSentSoon(view: View, g: Glance)
    requires g.v.Some? && Patience(view.cfg).Some? && !Sends(view, g)
    ensures LastSent(view) > g.now - Patience(view.cfg).value
  {
    if g.now >= LastSent(view) + Patience(view.cfg).value { DueInTime(view, g); }
  }

  /** So a pass brings the client up to date, or comes too soon. */
  lemma PassInTime(st: State, scans: seq<Option<Tick>>, store: Store, k: nat, p: Path)
    requires StepIsFaithful(st, Pass(scans, store), p) && p in store
    requires k < |st.subs| && p in st.subs[k].selects && scans[k].Some? && Patience(st.subs[k].cfg).Some?
    ensures || Held(Next(st, Pass(scans, store)).stream, p) == Some(store[p])
            || LastSent(At(st.subs[k], p)) > scans[k].value.now - Patience(st.subs[k].cfg).value
  {
    var view, g := At(st.subs[k], p), GlanceOf(scans[k], p);
    ScanFitsAt(st.subs, scans, Lookup(store, p), p, k);
    PassTells(st, scans, store, k, p);
    if !Sends(view, g) { NotSentSoon(view, g); }
  }

  /**
   Over every run es, whatever the other subscriptions are and whichever of their scans fail: after
   a further pass in which a subscription with a patience of w scans a path, the client has what
   is there, unless less than w before this scan the subscription joined, or scanned in a pass
   after which the client had what was there. So it is behind for less than w and the time from
   one pass to the next.
   */
  lemma BehindOnlyBriefly(es: seq<Event>, scans: seq<Option<Tick>>, store: Store, k: nat, p: Path, w: nat)
    requires Faithful(es, p) && StepIsFaithful(After(es), Pass(scans, store), p) && p in store
    requires var subs := After(es).subs;
      k < |subs| && p in subs[k].selects && scans[k].Some? && Patience(subs[k].cfg) == Some(w) && w <= scans[k].value.now
    ensures || Held(Next(After(es), Pass(scans, store)).stream, p) == Some(store[p])
            || OnceFresh(es, k, p, scans[k].value.now - w)
  {
    PassInTime(After(es), scans, store, k, p);
    SentRecently(es, k, p, scans[k].value.now - w);
  }

  lemma SentRecently(es: seq<Event>, k: nat, p: Path, t: nat)
    requires Faithful(es, p) && k < |After(es).subs|
    ensures LastSent(At(After(es).subs[k], p)) > t ==> OnceFresh(es, k, p, t)
  {
    if LastSent(At(After(es).subs[k], p)) > t { SentWhenFresh(es, k, p, t); }
  }
}
