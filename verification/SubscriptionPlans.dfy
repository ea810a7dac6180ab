/**
 The condition for agreement in terms of what a client asks for (proto/server/gnmi_sysrepo.cpp):
 which subscriptions, in which order, with which settings, and when the timer passes. Every run
 of such a plan agrees at a path after its last pass exactly if the last subscription that selects
 the path and sends its first scan is ON_CHANGE.
 */
module SubscriptionPlans {
  import opened Basics
  import opened Subscription
  import opened SubscriptionMgr
  import opened SubscriptionPath
  import opened SubscriptionRuns

  datatype Asked = Asked(cfg: Settings, selects: iset<Path>)

  datatype Step = Ask(asked: seq<Asked>, updatesOnly: bool) | Sweep

  /** The time after which a subscription may repeat itself, changed or not; ON_CHANGE without a heartbeat never does. */
  predicate Slow(cfg: Settings, span: nat) {
    match cfg.mode
    case Sample => cfg.sampleInterval > span
    case OnChange => cfg.heartbeat == 0 || cfg.heartbeat > span
    case TargetDefined => true
  }

  /**
   Settings the server accepts, with a sampling interval that has gone by since the epoch and
   nothing to repeat between `from` and `until`; when these are the same time, that asks nothing.
   */
  predicate Acceptable(a: Asked, from: Time, until: Time) {
    CheckSettings(a.cfg) == Ok && a.cfg.sampleInterval <= from <= until && Slow(a.cfg, until - from)
  }

  predicate AllAcceptable(asked: seq<Asked>, from: Time, until: Time) {
    asked == [] || (Acceptable(asked[0], from, until) && AllAcceptable(asked[1..], from, until))
  }

  predicate PlanAcceptable(plan: seq<Step>, from: Time, until: Time) {
    plan == [] ||
    (PlanAcceptable(plan[..|plan| - 1], from, until) &&
     (plan[|plan| - 1].Ask? ==> AllAcceptable(plan[|plan| - 1].asked, from, until)))
  }

  // ---------------------------------------------------------- runs of a plan

  predicate ListFollows(ws: seq<Wanted>, asked: seq<Asked>) {
    |ws| == |asked| &&
    (ws == [] ||
     (Asked(ws[0].cfg, ws[0].selects) == asked[0] && ws[0].xpathOk && ws[0].first.Some? && ListFollows(ws[1..], asked[1..])))
  }

  predicate AllScan(scans: seq<Option<Tick>>) {
    scans == [] || (scans[0].Some? && AllScan(scans[1..]))
  }

  predicate StepFollows(st: State, e: Event, step: Step) {
    match step
    case Ask(asked, updatesOnly) => e.Add? && e.updatesOnly == updatesOnly && ListFollows(e.ws, asked)
    case Sweep => e.Pass? && |e.scans| == |st.subs| && AllScan(e.scans)
  }

  /** The run does what the plan says, and no scan fails; times and values are its own. */
  predicate Follows(es: seq<Event>, plan: seq<Step>)
    decreases |plan|
  {
    |es| == |plan| &&
    (plan == [] ||
     (Follows(es[..|es| - 1], plan[..|plan| - 1]) && StepFollows(After(es[..|es| - 1]), es[|es| - 1], plan[|plan| - 1])))
  }

  /** The mode of the last subscription that selects the path and sends its first scan. */
  function SenderList(asked: seq<Asked>, updatesOnly: bool, m: Option<Mode>, p: Path): Option<Mode>
    decreases |asked|
  {
    if asked == [] then m
    else SenderList(asked[1..], updatesOnly, if updatesOnly || p !in asked[0].selects then m else Some(asked[0].cfg.mode), p)
  }

  function Sender(plan: seq<Step>, p: Path): Option<Mode> {
    if plan == [] then None
    else SenderAfter(plan[|plan| - 1], Sender(plan[..|plan| - 1], p), p)
  }

  function SenderAfter(step: Step, before: Option<Mode>, p: Path): Option<Mode> {
    match step
    case Ask(asked, updatesOnly) => SenderList(asked, updatesOnly, before, p)
    case Sweep => before
  }

  ghost predicate Corresponds(anchor: Option<nat>, m: Option<Mode>) {
    anchor.Some? <==> m == Some(OnChange)
  }

  lemma {:induction false} AnchorListFollows(ws: seq<Wanted>, asked: seq<Asked>, updatesOnly: bool, n: nat, anchor: Option<nat>, m: Option<Mode>, p: Path,
                                              from: Time, until: Time)
    requires ListFollows(ws, asked) && AllAcceptable(asked, from, until) && Corresponds(anchor, m)
    ensures Corresponds(AnchorList(ws, updatesOnly, n, anchor, p), SenderList(asked, updatesOnly, m, p))
    decreases |ws|
  {
    if ws != [] {
      assert StatusOf(ws[0]) == Ok;
      AnchorListFollows(ws[1..], asked[1..], updatesOnly, n + 1, AnchorJoin(ws[0], updatesOnly, n, anchor, p),
                        if updatesOnly || p !in asked[0].selects then m else Some(asked[0].cfg.mode), p, from, until);
    }
  }

  lemma {:induction false} AllScanAt(scans: seq<Option<Tick>>, k: nat)
    requires AllScan(scans) && k < |scans|
    ensures scans[k].Some?
    decreases k
  {
    if k > 0 { AllScanAt(scans[1..], k - 1); }
  }

  /** In a run without failed scans, the path has an anchor exactly if the plan's last sender there is ON_CHANGE. */
  lemma {:induction false} AnchorFollows(es: seq<Event>, plan: seq<Step>, p: Path, from: Time, until: Time)
    requires Follows(es, plan) && PlanAcceptable(plan, from, until)
    ensures Corresponds(Anchor(es, p), Sender(plan, p))
    decreases |plan|
  {
    if plan != [] {
      var before, e := es[..|es| - 1], es[|es| - 1];
      AnchorFollows(before, plan[..|plan| - 1], p, from, until);
      match plan[|plan| - 1] {
        case Ask(asked, updatesOnly) =>
          AnchorListFollows(e.ws, asked, updatesOnly, |After(before).subs|, Anchor(before, p), Sender(plan[..|plan| - 1], p), p,
                            from, until);
        case Sweep =>
          var anchor := Anchor(before, p);
          if anchor.Some? && anchor.value < |e.scans| { AllScanAt(e.scans, anchor.value); }
      }
    }
  }

  // --------------------------------------------------------------- schedules

  predicate FirstsAt(ws: seq<Wanted>, now: Time) {
    ws == [] || ((ws[0].first.Some? ==> ws[0].first.value.now == now) && FirstsAt(ws[1..], now))
  }

  predicate ScansAt(scans: seq<Option<Tick>>, now: Time) {
    scans == [] || ((scans[0].Some? ==> scans[0].value.now == now) && ScansAt(scans[1..], now))
  }

  /** The i-th event reads the clock at times[i]. */
  predicate Timed(es: seq<Event>, times: seq<Time>) {
    |es| <= |times| &&
    (es == [] ||
     (Timed(es[..|es| - 1], times) && EventAt(es[|es| - 1], times[|es| - 1])))
  }

  predicate EventAt(e: Event, now: Time) {
    match e
    case Add(ws, _) => FirstsAt(ws, now)
    case Pass(scans, _) => ScansAt(scans, now)
  }

  predicate Between(times: seq<Time>, from: Time, until: Time) {
    forall i :: 0 <= i < |times| ==> from <= times[i] <= until
  }

  // --------------------------------------------------- a run that goes wrong

  /** What a first scan shows: 1 to ON_CHANGE subscriptions, 2 to SAMPLE ones. */
  function Mark(m: Mode): Value {
    if m.OnChange? then "1" else "2"
  }

  ghost function OneLeaf(selects: iset<Path>, p: Path, v: Value, now: Time): Tick {
    Tick(if p in selects then [Item(p, true, false, v)] else [], now)
  }

  ghost function WorstList(asked: seq<Asked>, p: Path, now: Time): seq<Wanted> {
    if asked == [] then []
    else [Wanted(asked[0].cfg, asked[0].selects, true, Some(OneLeaf(asked[0].selects, p, Mark(asked[0].cfg.mode), now)))] + WorstList(asked[1..], p, now)
  }

  /** Every pass finds 1. */
  ghost function WorstScans(subs: seq<Sub>, p: Path, now: Time): (r: seq<Option<Tick>>)
    ensures |r| == |subs|
  {
    if subs == [] then [] else [Some(OneLeaf(subs[0].selects, p, "1", now))] + WorstScans(subs[1..], p, now)
  }

  /** The event that goes wrong. */
  ghost function WorstEvent(st: State, step: Step, p: Path, now: Time): Event {
    match step
    case Ask(asked, updatesOnly) => Add(WorstList(asked, p, now), updatesOnly)
    case Sweep => Pass(WorstScans(st.subs, p, now), map[p := "1"])
  }

  ghost function Worst(plan: seq<Step>, p: Path, times: seq<Time>): (r: seq<Event>)
    requires |plan| <= |times|
    ensures |r| == |plan|
  {
    if plan == [] then []
    else
      var before := Worst(plan[..|plan| - 1], p, times);
      before + [WorstEvent(After(before), plan[|plan| - 1], p, times[|plan| - 1])]
  }

  lemma LeafScanned(selects: iset<Path>, p: Path, v: Value, now: Time)
    ensures var tick := OneLeaf(selects, p, v, now);
      OnceEach(tick.items) && Scanned(tick.items, p) == if p in selects then Some(v) else None
  {
    var items := OneLeaf(selects, p, v, now).items;
    if p in selects { assert items[..0] == []; }
  }

  lemma {:induction false} WorstListFollows(asked: seq<Asked>, p: Path, now: Time)
    ensures var ws := WorstList(asked, p, now); ListFollows(ws, asked) && FirstsFit(ws, p) && FirstsAt(ws, now)
  {
    if asked != [] {
      WorstListFollows(asked[1..], p, now);
      LeafScanned(asked[0].selects, p, Mark(asked[0].cfg.mode), now);
      assert WorstList(asked, p, now)[1..] == WorstList(asked[1..], p, now);
    }
  }

  lemma {:induction false} WorstScansFit(subs: seq<Sub>, p: Path, now: Time)
    ensures var scans := WorstScans(subs, p, now); AllScan(scans) && ScansFit(subs, scans, Some("1"), p) && ScansAt(scans, now)
    decreases |subs|
  {
    if subs != [] {
      WorstScansFit(subs[1..], p, now);
      LeafScanned(subs[0].selects, p, "1", now);
      assert WorstScans(subs, p, now)[1..] == WorstScans(subs[1..], p, now);
    }
  }

  /** Where the run leaves a subscription that selects the path: with its mark, sent since `from`. */
  ghost predicate Settled(s: Sub, p: Path, from: Time, until: Time) {
    Acceptable(Asked(s.cfg, s.selects), from, until) && (p in s.selects ==> Marked(At(s, p), from))
  }

  predicate Marked(view: View, from: Time) {
    view.last.Some? && view.last.value.v == Mark(view.cfg.mode) && view.last.value.lastSent >= from
  }

  ghost predicate AllSettled(subs: seq<Sub>, p: Path, from: Time, until: Time) {
    subs == [] || (Settled(subs[0], p, from, until) && AllSettled(subs[1..], p, from, until))
  }

  lemma {:induction false} OneMoreSettled(subs: seq<Sub>, s: Sub, p: Path, from: Time, until: Time)
    requires AllSettled(subs, p, from, until) && Settled(s, p, from, until)
    ensures AllSettled(subs + [s], p, from, until)
  {
    if subs != [] {
      OneMoreSettled(subs[1..], s, p, from, until);
      assert (subs + [s])[1..] == subs[1..] + [s];
    } else {
      assert (subs + [s])[1..] == [];
    }
  }

  ghost function MarkOf(m: Option<Mode>): Option<Value> {
    match m case None => None case Some(mode) => Some(Mark(mode))
  }

  /** A first scan is due, whatever the mode, and leaves the mark. */
  lemma FreshLook(cfg: Settings, now: Time)
    requires CheckSettings(cfg) == Ok && cfg.sampleInterval <= now
    ensures Look(View(cfg, None), Some(Mark(cfg.mode)), now) ==
            (View(cfg, Some(Stored(Mark(cfg.mode), now))), Some(Mark(cfg.mode)))
  {
  }

  /** A later one that finds 1 is not: ON_CHANGE sees no change, and nothing is to be repeated yet. */
  lemma SettledLook(view: View, now: Time, from: Time, until: Time)
    requires CheckSettings(view.cfg) == Ok && from <= now <= until && Slow(view.cfg, until - from) && Marked(view, from)
    ensures Look(view, Some("1"), now) == (view, None)
  {
  }

  lemma WorstJoin(a: Asked, w: Wanted, updatesOnly: bool, subs: seq<Sub>, stream: seq<Message>, m: Option<Mode>, p: Path,
                  now: Time, from: Time, until: Time)
    requires Acceptable(a, from, until) && from <= now <= until
    requires w == Wanted(a.cfg, a.selects, true, Some(OneLeaf(a.selects, p, Mark(a.cfg.mode), now)))
    requires AllSettled(subs, p, from, until) && Held(stream, p) == MarkOf(m)
    ensures StatusOf(w) == Ok && AllSettled(subs + [Started(w)], p, from, until)
    ensures Held(stream + FirstMessages(w, updatesOnly), p) ==
            MarkOf(if updatesOnly || p !in a.selects then m else Some(a.cfg.mode))
  {
    var s := Sub(a.cfg, a.selects, map[]);
    LeafScanned(a.selects, p, Mark(a.cfg.mode), now);
    ScanOneLooks(s, w.first, stream, p);
    FreshLook(a.cfg, now);
    assert At(s, p) == View(a.cfg, None);
    OneMoreSettled(subs, Started(w), p, from, until);
    assert stream + [] == stream;
  }

  lemma {:induction false} WorstAdd(asked: seq<Asked>, updatesOnly: bool, subs: seq<Sub>, stream: seq<Message>, m: Option<Mode>,
                                    p: Path, now: Time, from: Time, until: Time)
    requires AllAcceptable(asked, from, until) && from <= now <= until
    requires AllSettled(subs, p, from, until) && Held(stream, p) == MarkOf(m)
    ensures var (_, subs', stream') := AddList(WorstList(asked, p, now), updatesOnly, subs, stream);
      AllSettled(subs', p, from, until) && Held(stream', p) == MarkOf(SenderList(asked, updatesOnly, m, p))
    decreases |asked|
  {
    if asked == [] {
      HeldAfterSync(stream, p);
    } else {
      var w := WorstList(asked, p, now)[0];
      assert WorstList(asked, p, now)[1..] == WorstList(asked[1..], p, now);
      WorstJoin(asked[0], w, updatesOnly, subs, stream, m, p, now, from, until);
      WorstAdd(asked[1..], updatesOnly, subs + [Started(w)], stream + FirstMessages(w, updatesOnly),
               if updatesOnly || p !in asked[0].selects then m else Some(asked[0].cfg.mode), p, now, from, until);
    }
  }

  /** A pass that finds 1 changes nothing at the path. */
  lemma {:induction false} WorstPass(subs: seq<Sub>, stream: seq<Message>, p: Path, now: Time, from: Time, until: Time)
    requires AllSettled(subs, p, from, until) && from <= now <= until
    ensures var (subs', written) := PassOver(subs, WorstScans(subs, p, now));
      AllSettled(subs', p, from, until) && Held(stream + written, p) == Held(stream, p)
    decreases |subs|
  {
    if subs == [] {
      assert stream + [] == stream;
    } else {
      var scan := Some(OneLeaf(subs[0].selects, p, "1", now));
      var (s, sent) := ScanOne(subs[0], scan);
      assert WorstScans(subs, p, now)[1..] == WorstScans(subs[1..], p, now);
      LeafScanned(subs[0].selects, p, "1", now);
      ScanOneLooks(subs[0], scan, stream, p);
      if p in subs[0].selects { SettledLook(At(subs[0], p), now, from, until); }
      WorstPass(subs[1..], stream + sent, p, now, from, until);
      var (rest, later) := PassOver(subs[1..], WorstScans(subs[1..], p, now));
      assert ([s] + rest)[1..] == rest;
      Regroup(stream, sent, later);
    }
  }

  lemma WorstStep(st: State, step: Step, m: Option<Mode>, p: Path, now: Time, from: Time, until: Time)
    requires step.Ask? ==> AllAcceptable(step.asked, from, until)
    requires from <= now <= until && AllSettled(st.subs, p, from, until) && Held(st.stream, p) == MarkOf(m)
    ensures var e := WorstEvent(st, step, p, now);
      && StepFollows(st, e, step) && StepIsFaithful(st, e, p) && EventAt(e, now)
      && AllSettled(Next(st, e).subs, p, from, until) && Held(Next(st, e).stream, p) == MarkOf(SenderAfter(step, m, p))
  {
    match step
    case Ask(asked, updatesOnly) =>
      WorstListFollows(asked, p, now);
      WorstAdd(asked, updatesOnly, st.subs, st.stream, m, p, now, from, until);
    case Sweep =>
      WorstScansFit(st.subs, p, now);
      WorstPass(st.subs, st.stream, p, now, from, until);
  }

  /** The run so built is a run of the plan at these times, and leaves the client with the mark of the last sender. */
  lemma {:induction false} WorstRun(plan: seq<Step>, p: Path, times: seq<Time>, from: Time, until: Time)
    requires PlanAcceptable(plan, from, until) && |plan| <= |times| && Between(times, from, until)
    ensures var es := Worst(plan, p, times);
      && Follows(es, plan) && Faithful(es, p) && Timed(es, times)
      && AllSettled(After(es).subs, p, from, until) && Held(After(es).stream, p) == MarkOf(Sender(plan, p))
    decreases |plan|
  {
    if plan != [] {
      var es, before, now := Worst(plan, p, times), Worst(plan[..|plan| - 1], p, times), times[|plan| - 1];
      WorstRun(plan[..|plan| - 1], p, times, from, until);
      assert es[..|es| - 1] == before;
      WorstStep(After(before), plan[|plan| - 1], Sender(plan[..|plan| - 1], p), p, now, from, until);
    }
  }

  // -------------------------------------------------------- the exact condition

  /** After the run's last pass the client has the value the path then has. */
  ghost predicate Agrees(es: seq<Event>, p: Path) {
    es != [] && es[|es| - 1].Pass? && (p in es[|es| - 1].store ==> Held(After(es).stream, p) == Some(es[|es| - 1].store[p]))
  }

  ghost predicate RunOf(es: seq<Event>, plan: seq<Step>, p: Path) {
    Follows(es, plan) && Faithful(es, p)
  }

  lemma AnchoredPlanAgrees(es: seq<Event>, plan: seq<Step>, p: Path, from: Time, until: Time)
    requires PlanAcceptable(plan, from, until) && plan != [] && plan[|plan| - 1].Sweep? && RunOf(es, plan, p)
    requires Sender(plan, p) == Some(OnChange)
    ensures Agrees(es, p)
  {
    AnchorFollows(es, plan, p, from, until);
    if p in es[|es| - 1].store { ManagerAgreement(es, p); }
  }

  /**
   Otherwise, at whatever times its events are, a run goes wrong unless it lasts long enough for a
   repetition: ON_CHANGE subscriptions join at 1, SAMPLE ones at 2, all passes find 1.
   */
  lemma OtherPlanCanDisagree(plan: seq<Step>, p: Path, times: seq<Time>, from: Time, until: Time) returns (es: seq<Event>)
    requires PlanAcceptable(plan, from, until) && plan != [] && plan[|plan| - 1].Sweep?
    requires |times| == |plan| && Between(times, from, until)
    requires Sender(plan, p) != Some(OnChange)
    ensures RunOf(es, plan, p) && Timed(es, times) && !Agrees(es, p)
  {
    es := Worst(plan, p, times);
    WorstRun(plan, p, times, from, until);
    var e := es[|es| - 1];
    assert e.store == map[p := "1"];
    assert Held(After(es).stream, p) != Some("1");
  }

  /**
   For every plan that ends with a pass, every path, and every schedule shorter than the plan's
   intervals and heartbeats: all runs at these times agree there after it, exactly if the last
   subscription that selects the path and sends its first scan is ON_CHANGE; and so do all runs.
   */
  lemma PlanAgreesIff(plan: seq<Step>, p: Path, times: seq<Time>, from: Time, until: Time)
    requires PlanAcceptable(plan, from, until) && plan != [] && plan[|plan| - 1].Sweep?
    requires |times| == |plan| && Between(times, from, until)
    ensures (forall es :: RunOf(es, plan, p) && Timed(es, times) ==> Agrees(es, p)) <==> Sender(plan, p) == Some(OnChange)
    ensures (forall es :: RunOf(es, plan, p) ==> Agrees(es, p)) <==> Sender(plan, p) == Some(OnChange)
  {
    if Sender(plan, p) == Some(OnChange) {
      forall es | RunOf(es, plan, p) ensures Agrees(es, p) {
        AnchoredPlanAgrees(es, plan, p, from, until);
      }
    } else {
      var es := OtherPlanCanDisagree(plan, p, times, from, until);
    }
  }
}
