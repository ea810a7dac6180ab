/**
 gNMI STREAM subscriptions (SubscriptionStreamMgr in proto/server/gnmi_sysrepo.cpp): a cache
 of the values last sent decides, scan by scan, which leaves to send again. Sections 3.5.1.3
 and 3.5.1.5.2 of the gNMI specification.
 */
module Subscription {
  import opened Basics

  type Path = string

  /** A gnmi.TypedValue, up to MessageDifferencer::Equals. */
  type Value = string

  /** Nanoseconds since the epoch; TimePoint::max() is never reached. */
  const TIME_MAX := 0x7fff_ffff_ffff_ffff
  type Time = t: int | 0 <= t < 0x7fff_ffff_ffff_ffff

  datatype Mode = OnChange | Sample | TargetDefined

  datatype Settings = Settings(mode: Mode, sampleInterval: nat, suppressRedundant: bool, heartbeat: nat)

  /** One item of a sysrepo scan. */
  datatype Item = Item(path: Path, leaf: bool, dflt: bool, v: Value)

  datatype Stored = Stored(v: Value, lastSent: Time)

  type Cache = map<Path, Stored>

  datatype Update = Update(path: Path, v: Value)

  /** Only set leaves take part. */
  predicate Counts(item: Item) {
    item.leaf && !item.dflt
  }

  // ------------------------------------------------------------ the code's rule

  /** needs_to_be_sent. */
  predicate Due(cfg: Settings, changed: bool, now: Time, lastSent: Time) {
    match cfg.mode
    case Sample =>
      if changed || !cfg.suppressRedundant then now >= lastSent + cfg.sampleInterval
      else now >= lastSent + cfg.heartbeat
    case OnChange =>
      changed || now >= if cfg.heartbeat > 0 then lastSent + cfg.heartbeat else TIME_MAX
    case TargetDefined => false
  }

  /** The loop body: the cache afterwards and whether the leaf is to be sent. */
  function Visit(cfg: Settings, cache: Cache, item: Item, now: Time): (Cache, bool) {
    if !Counts(item) then (cache, false)
    else
      var changed := item.path !in cache || cache[item.path].v != item.v;
      var cache' := if item.path in cache then cache else cache[item.path := Stored(item.v, 0)];
      if Due(cfg, changed, now, cache'[item.path].lastSent)
      then (cache'[item.path := Stored(item.v, now)], true)
      else (cache', false)
  }

  /** A whole scan: the cache afterwards and the updates due, in order. */
  function Scan(cfg: Settings, cache: Cache, items: seq<Item>, now: Time): (Cache, seq<Update>) {
    if items == [] then (cache, [])
    else
      var n := |items| - 1;
      var (c, us) := Scan(cfg, cache, items[..n], now);
      var (c', due) := Visit(cfg, c, items[n], now);
      (c', if due then us + [Update(items[n].path, items[n].v)] else us)
  }

  class Subscription {
    const cfg: Settings
    var values: Cache

    constructor (cfg: Settings)
      ensures this.cfg == cfg && values == map[]
    {
      this.cfg := cfg;
      values := map[];
    }

    /**
     One call of process: `scan` is what the datastore iterator yields, None if it cannot be
     opened. Returns success and the notification written to the stream, if one is.
     */
    method Process(scan: Option<seq<Item>>, now: Time, send: bool) returns (ok: bool, written: Option<seq<Update>>)
      modifies this`values
      ensures ok == scan.Some?
      ensures scan.None? ==> values == old(values) && written == None
      ensures scan.Some? ==>
        var (cache, updates) := Scan(cfg, old(values), scan.value, now);
        values == cache && written == if send && updates != [] then Some(updates) else None
    {
      if scan.None? {
        return false, None;
      }
      var items := scan.value;
      var notification: seq<Update> := [];
      var i := 0;
      ghost var due: seq<Update> := [];
      while i < |items|
        invariant 0 <= i <= |items|
        invariant Scan(cfg, old(values), items[..i], now) == (values, due)
        invariant notification == if send then due else []
      {
        assert items[..i + 1][..i] == items[..i];
        ghost var before := values;
        var item := items[i];
        i := i + 1;
        if !item.leaf {
          continue;
        }
        if item.dflt {
          continue;
        }
        var hasChanged := false;
        if item.path !in values {
          values := values[item.path := Stored(item.v, 0)];
          hasChanged := true;
        } else {
          hasChanged := values[item.path].v != item.v;
        }
        var needsToBeSent := Due(cfg, hasChanged, now, values[item.path].lastSent);
        if !needsToBeSent {
          continue;
        }
        values := values[item.path := Stored(item.v, now)];
        due := due + [Update(item.path, item.v)];
        if !send {
          continue;
        }
        notification := notification + [Update(item.path, item.v)];
      }
      assert items[..i] == items;
      ok := true;
      written := if send && notification != [] then Some(notification) else None;
    }
  }

  // ------------------------------------------------------- the client's replica

  /** What a client that applies every update in order holds. */
  function Replay(replica: map<Path, Value>, updates: seq<Update>): map<Path, Value> {
    if updates == [] then replica
    else
      var last := updates[|updates| - 1];
      Replay(replica, updates[..|updates| - 1])[last.path := last.v]
  }

  function Values(cache: Cache): map<Path, Value> {
    map p | p in cache :: cache[p].v
  }

  /** The value a scan ends up giving a path: that of its last set leaf there. */
  function Scanned(items: seq<Item>, p: Path): Option<Value> {
    if items == [] then None
    else
      var last := items[|items| - 1];
      if Counts(last) && last.path == p then Some(last.v) else Scanned(items[..|items| - 1], p)
  }

  lemma VisitKeepsReplica(cfg: Settings, cache: Cache, item: Item, now: Time)
    requires cfg.mode.OnChange?
    ensures var (cache', due) := Visit(cfg, cache, item, now);
            Values(cache') == if due then Values(cache)[item.path := item.v] else Values(cache)
  {
  }

  lemma ReplayAppend(replica: map<Path, Value>, us: seq<Update>, u: Update)
    ensures Replay(replica, us + [u]) == Replay(replica, us)[u.path := u.v]
  {
    assert (us + [u])[..|us + [u]| - 1] == us;
  }

  /** One scan, ON_CHANGE: the updates turn a copy of the old cache into a copy of the new one. */
  lemma {:induction false} ScanKeepsReplica(cfg: Settings, cache: Cache, items: seq<Item>, now: Time)
    requires cfg.mode.OnChange?
    ensures var (cache', us) := Scan(cfg, cache, items, now); Replay(Values(cache), us) == Values(cache')
  {
    if items != [] {
      var n := |items| - 1;
      var (c, us) := Scan(cfg, cache, items[..n], now);
      ScanKeepsReplica(cfg, cache, items[..n], now);
      VisitKeepsReplica(cfg, c, items[n], now);
      ReplayAppend(Values(cache), us, Update(items[n].path, items[n].v));
    }
  }

  /** And the new cache holds what the scan showed. */
  lemma {:induction false} ScanIsCached(cfg: Settings, cache: Cache, items: seq<Item>, now: Time, p: Path)
    requires cfg.mode.OnChange?
    ensures var cache' := Scan(cfg, cache, items, now).0;
            Scanned(items, p).Some? ==> p in cache' && cache'[p].v == Scanned(items, p).value
  {
    if items != [] {
      var n := |items| - 1;
      ScanIsCached(cfg, cache, items[..n], now, p);
      VisitTouchesOne(cfg, Scan(cfg, cache, items[..n], now).0, items[n], now, p);
    }
  }

  lemma VisitTouchesOne(cfg: Settings, cache: Cache, item: Item, now: Time, p: Path)
    requires cfg.mode.OnChange?
    ensures var cache' := Visit(cfg, cache, item, now).0;
            if Counts(item) && item.path == p then p in cache' && cache'[p].v == item.v
            else (p in cache' <==> p in cache) && (p in cache ==> cache'[p] == cache[p])
  {
  }

  /** A scan at a time. */
  datatype Tick = Tick(items: seq<Item>, now: Time)

  /** The cache after some scans and all the updates they were due to send, in order. */
  function ScanAll(cfg: Settings, cache: Cache, ticks: seq<Tick>): (Cache, seq<Update>) {
    if ticks == [] then (cache, [])
    else
      var n := |ticks| - 1;
      var (c, us) := ScanAll(cfg, cache, ticks[..n]);
      var (c', vs) := Scan(cfg, c, ticks[n].items, ticks[n].now);
      (c', us + vs)
  }

  lemma {:induction false} ReplayConcat(replica: map<Path, Value>, us: seq<Update>, vs: seq<Update>)
    ensures Replay(replica, us + vs) == Replay(Replay(replica, us), vs)
  {
    if vs == [] {
      assert us + vs == us;
    } else {
      var n := |vs| - 1;
      ReplayConcat(replica, us, vs[..n]);
      assert (us + vs)[..|us + vs| - 1] == us + vs[..n];
    }
  }

  lemma {:induction false} ScansKeepReplica(cfg: Settings, cache: Cache, ticks: seq<Tick>)
    requires cfg.mode.OnChange?
    ensures var (cache', us) := ScanAll(cfg, cache, ticks); Replay(Values(cache), us) == Values(cache')
  {
    if ticks != [] {
      var n := |ticks| - 1;
      var (c, us) := ScanAll(cfg, cache, ticks[..n]);
      var (c', vs) := Scan(cfg, c, ticks[n].items, ticks[n].now);
      ScansKeepReplica(cfg, cache, ticks[..n]);
      ScanKeepsReplica(cfg, c, ticks[n].items, ticks[n].now);
      ReplayConcat(Values(cache), us, vs);
    }
  }

  /**
   ON_CHANGE replica agreement over whole runs. The subscription's first scan is sent unless
   the list asked for updates only; a client that starts from nothing (or, for updates only,
   from the values of that first scan) and applies everything sent since holds, for every
   leaf of the latest scan, the scanned value.
   */
  lemma ReplicaAgreement(cfg: Settings, first: Tick, ticks: seq<Tick>, updatesOnly: bool, p: Path)
    requires cfg.mode.OnChange?
    ensures var (cache, initial) := Scan(cfg, map[], first.items, first.now);
            var (_, later) := ScanAll(cfg, cache, ticks);
            var replica := if updatesOnly then Replay(Values(cache), later) else Replay(map[], initial + later);
            var latest := if ticks == [] then first else ticks[|ticks| - 1];
            Scanned(latest.items, p).Some? ==> p in replica && replica[p] == Scanned(latest.items, p).value
  {
    var (cache, initial) := Scan(cfg, map[], first.items, first.now);
    var (cache', later) := ScanAll(cfg, cache, ticks);
    ScanKeepsReplica(cfg, map[], first.items, first.now);
    assert Values(map[]) == map[];
    ScansKeepReplica(cfg, cache, ticks);
    ReplayConcat(map[], initial, later);
    if ticks == [] {
      ScanIsCached(cfg, map[], first.items, first.now, p);
    } else {
      var n := |ticks| - 1;
      ScanIsCached(cfg, ScanAll(cfg, cache, ticks[..n]).0, ticks[n].items, ticks[n].now, p);
    }
  }

  // -------------------------------------------------------- the rule, without a cache

  /** An update and when it was sent. */
  datatype SentAt = SentAt(at: Time, path: Path, v: Value)

  /** The last time a path was sent. */
  function LastSent(history: seq<SentAt>, p: Path): (r: Option<SentAt>)
    ensures r.Some? ==> r.value.path == p
  {
    if history == [] then None
    else
      var last := history[|history| - 1];
      if last.path == p then Some(last) else LastSent(history[..|history| - 1], p)
  }

  /** The value a path first had among the items seen. */
  function FirstSeen(seen: seq<Item>, p: Path): Option<Value> {
    if seen == [] then None
    else
      var before, last := FirstSeen(seen[..|seen| - 1], p), seen[|seen| - 1];
      if before.None? && Counts(last) && last.path == p then Some(last.v) else before
  }

  /** Sampling: a value that is new, or redundant ones too if they are not suppressed, wait out the interval; others the heartbeat. */
  function Wait(cfg: Settings, differs: bool): nat {
    if differs || !cfg.suppressRedundant then cfg.sampleInterval else cfg.heartbeat
  }

  /**
   The rule as the specification words it, from what was sent and seen. ON_CHANGE: a leaf is
   sent when it never was, when its value differs from the one sent last, or when a nonzero
   heartbeat interval has gone by since. SAMPLE: when the sampling interval has gone by since
   it was sent last, or with suppress_redundant and an unchanged value the heartbeat interval.
   A sampled leaf that was never sent counts as sent at the epoch with the value it was first seen with.
   */
  predicate MustSend(cfg: Settings, history: seq<SentAt>, seen: seq<Item>, item: Item, now: Time) {
    Counts(item) &&
    var last := LastSent(history, item.path);
    match cfg.mode
    case OnChange => last.None? || last.value.v != item.v || (cfg.heartbeat > 0 && now >= last.value.at + cfg.heartbeat)
    case Sample =>
      if last.Some? then now >= last.value.at + Wait(cfg, last.value.v != item.v)
      else now >= Wait(cfg, FirstSeen(seen, item.path) != Some(item.v))
    case TargetDefined => false
  }

  function SpecScan(cfg: Settings, history: seq<SentAt>, seen: seq<Item>, items: seq<Item>, now: Time): seq<SentAt> {
    if items == [] then history
    else
      var n := |items| - 1;
      var h := SpecScan(cfg, history, seen, items[..n], now);
      if MustSend(cfg, h, seen + items[..n], items[n], now) then h + [SentAt(now, items[n].path, items[n].v)] else h
  }

  /** All items seen in some scans. */
  function Seen(ticks: seq<Tick>): seq<Item> {
    if ticks == [] then [] else Seen(ticks[..|ticks| - 1]) + ticks[|ticks| - 1].items
  }

  function SpecRun(cfg: Settings, ticks: seq<Tick>): seq<SentAt> {
    if ticks == [] then []
    else
      var n := |ticks| - 1;
      SpecScan(cfg, SpecRun(cfg, ticks[..n]), Seen(ticks[..n]), ticks[n].items, ticks[n].now)
  }

  function Stamp(updates: seq<Update>, at: Time): seq<SentAt> {
    seq(|updates|, i requires 0 <= i < |updates| => SentAt(at, updates[i].path, updates[i].v))
  }

  /** What the code sends over a run, with the time of each update. */
  function CodeRun(cfg: Settings, ticks: seq<Tick>): seq<SentAt> {
    if ticks == [] then []
    else
      var n := |ticks| - 1;
      CodeRun(cfg, ticks[..n]) +
      Stamp(Scan(cfg, ScanAll(cfg, map[], ticks[..n]).0, ticks[n].items, ticks[n].now).1, ticks[n].now)
  }

  /** What the cache has of a path: its last sending, or that it was seen. */
  function Remembered(history: seq<SentAt>, seen: seq<Item>, p: Path): Option<Stored> {
    var last, first := LastSent(history, p), FirstSeen(seen, p);
    if last.Some? then Some(Stored(last.value.v, last.value.at))
    else if first.Some? then Some(Stored(first.value, 0))
    else None
  }

  function CachedAt(cache: Cache, p: Path): Option<Stored> {
    if p in cache then Some(cache[p]) else None
  }

  /** Seen before ON_CHANGE is sent before. */
  ghost predicate Mirrors(cfg: Settings, cache: Cache, history: seq<SentAt>, seen: seq<Item>) {
    forall p ::
      CachedAt(cache, p) == Remembered(history, seen, p) &&
      (cfg.mode.OnChange? && FirstSeen(seen, p).Some? ==> LastSent(history, p).Some?)
  }

  lemma LastSentAppend(history: seq<SentAt>, s: SentAt, p: Path)
    ensures LastSent(history + [s], p) == if s.path == p then Some(s) else LastSent(history, p)
  {
    assert (history + [s])[..|history + [s]| - 1] == history;
  }

  lemma FirstSeenAppend(seen: seq<Item>, item: Item, p: Path)
    ensures FirstSeen(seen + [item], p) ==
            if FirstSeen(seen, p).None? && Counts(item) && item.path == p then Some(item.v) else FirstSeen(seen, p)
  {
    assert (seen + [item])[..|seen + [item]| - 1] == seen;
  }

  lemma VisitIsDue(cfg: Settings, cache: Cache, history: seq<SentAt>, seen: seq<Item>, item: Item, now: Time)
    requires Mirrors(cfg, cache, history, seen)
    ensures Visit(cfg, cache, item, now).1 <==> MustSend(cfg, history, seen, item, now)
  {
    assert CachedAt(cache, item.path) == Remembered(history, seen, item.path);
  }

  lemma VisitMatchesSpec(cfg: Settings, cache: Cache, history: seq<SentAt>, seen: seq<Item>, item: Item, now: Time)
    requires Mirrors(cfg, cache, history, seen)
    ensures var (cache', due) := Visit(cfg, cache, item, now);
            && (due <==> MustSend(cfg, history, seen, item, now))
            && Mirrors(cfg, cache', if due then history + [SentAt(now, item.path, item.v)] else history, seen + [item])
  {
    VisitIsDue(cfg, cache, history, seen, item, now);
    var (cache', due) := Visit(cfg, cache, item, now);
    var s := SentAt(now, item.path, item.v);
    var h' := if due then history + [s] else history;
    forall p
      ensures CachedAt(cache', p) == Remembered(h', seen + [item], p)
      ensures cfg.mode.OnChange? && FirstSeen(seen + [item], p).Some? ==> LastSent(h', p).Some?
    {
      LastSentAppend(history, s, p);
      FirstSeenAppend(seen, item, p);
      assert CachedAt(cache, p) == Remembered(history, seen, p);
    }
  }

  lemma {:induction false} ScanMatchesSpec(cfg: Settings, cache: Cache, history: seq<SentAt>, seen: seq<Item>, items: seq<Item>, now: Time)
    requires Mirrors(cfg, cache, history, seen)
    ensures var (cache', us) := Scan(cfg, cache, items, now);
            && history + Stamp(us, now) == SpecScan(cfg, history, seen, items, now)
            && Mirrors(cfg, cache', SpecScan(cfg, history, seen, items, now), seen + items)
  {
    if items == [] {
      assert seen + items == seen;
    } else {
      var n := |items| - 1;
      var (c, us) := Scan(cfg, cache, items[..n], now);
      ScanMatchesSpec(cfg, cache, history, seen, items[..n], now);
      VisitMatchesSpec(cfg, c, history + Stamp(us, now), seen + items[..n], items[n], now);
      var u := Update(items[n].path, items[n].v);
      assert Stamp(us + [u], now) == Stamp(us, now) + [SentAt(now, u.path, u.v)];
      assert seen + items == (seen + items[..n]) + [items[n]];
    }
  }

  /** The cached rule refines the specification's, in every mode: every run sends exactly the same updates. */
  lemma {:induction false} CodeMatchesSpec(cfg: Settings, ticks: seq<Tick>)
    ensures CodeRun(cfg, ticks) == SpecRun(cfg, ticks)
    ensures Mirrors(cfg, ScanAll(cfg, map[], ticks).0, SpecRun(cfg, ticks), Seen(ticks))
  {
    if ticks != [] {
      var n := |ticks| - 1;
      CodeMatchesSpec(cfg, ticks[..n]);
      ScanMatchesSpec(cfg, ScanAll(cfg, map[], ticks[..n]).0, SpecRun(cfg, ticks[..n]), Seen(ticks[..n]), ticks[n].items, ticks[n].now);
    }
  }

  /** b may follow a as the next sending of the same path. */
  predicate MayFollow(cfg: Settings, a: SentAt, b: SentAt) {
    match cfg.mode
    case OnChange => a.v != b.v || (cfg.heartbeat > 0 && b.at >= a.at + cfg.heartbeat)
    case Sample => b.at >= a.at + if a.v != b.v || !cfg.suppressRedundant then cfg.sampleInterval else cfg.heartbeat
    case TargetDefined => false
  }

  /** The j-th sending is the next of the same path after the i-th. */
  ghost predicate Consecutive(history: seq<SentAt>, i: nat, j: nat) {
    && i < j < |history| && history[i].path == history[j].path
    && forall k :: i < k < j ==> history[k].path != history[i].path
  }

  /** No path is sent again before it may be. */
  ghost predicate NoneRedundant(cfg: Settings, history: seq<SentAt>) {
    forall i: nat, j: nat :: Consecutive(history, i, j) ==> MayFollow(cfg, history[i], history[j])
  }

  lemma {:induction false} LastSentAt(history: seq<SentAt>, i: nat)
    requires i < |history| && forall k :: i < k < |history| ==> history[k].path != history[i].path
    ensures LastSent(history, history[i].path) == Some(history[i])
  {
    if i < |history| - 1 {
      LastSentAt(history[..|history| - 1], i);
    }
  }

  lemma ConsecutiveLast(history: seq<SentAt>, s: SentAt, i: nat)
    requires Consecutive(history + [s], i, |history|)
    ensures LastSent(history, s.path) == Some(history[i])
  {
    var h' := history + [s];
    assert h'[i] == history[i] && h'[|history|] == s;
    forall k | i < k < |history| ensures history[k].path != history[i].path {
      assert h'[k] == history[k];
    }
    LastSentAt(history, i);
  }

  lemma ConsecutiveBefore(history: seq<SentAt>, s: SentAt, i: nat, j: nat)
    requires Consecutive(history + [s], i, j) && j < |history|
    ensures Consecutive(history, i, j)
  {
    var h' := history + [s];
    assert h'[i] == history[i] && h'[j] == history[j];
    forall k | i < k < j ensures history[k].path != history[i].path {
      assert h'[k] == history[k];
    }
  }

  lemma OneMoreNotRedundant(cfg: Settings, history: seq<SentAt>, seen: seq<Item>, item: Item, now: Time)
    requires NoneRedundant(cfg, history) && MustSend(cfg, history, seen, item, now)
    ensures NoneRedundant(cfg, history + [SentAt(now, item.path, item.v)])
  {
    var s := SentAt(now, item.path, item.v);
    var h' := history + [s];
    forall i: nat, j: nat | Consecutive(h', i, j) ensures MayFollow(cfg, h'[i], h'[j]) {
      if j == |history| {
        ConsecutiveLast(history, s, i);
      } else {
        ConsecutiveBefore(history, s, i, j);
      }
    }
  }

  lemma {:induction false} SpecScanNotRedundant(cfg: Settings, history: seq<SentAt>, seen: seq<Item>, items: seq<Item>, now: Time)
    requires NoneRedundant(cfg, history)
    ensures NoneRedundant(cfg, SpecScan(cfg, history, seen, items, now))
  {
    if items != [] {
      var n := |items| - 1;
      SpecScanNotRedundant(cfg, history, seen, items[..n], now);
      var h := SpecScan(cfg, history, seen, items[..n], now);
      if MustSend(cfg, h, seen + items[..n], items[n], now) {
        OneMoreNotRedundant(cfg, h, seen + items[..n], items[n], now);
      }
    }
  }

  lemma {:induction false} SpecRunNotRedundant(cfg: Settings, ticks: seq<Tick>)
    ensures NoneRedundant(cfg, SpecRun(cfg, ticks))
  {
    if ticks != [] {
      var n := |ticks| - 1;
      SpecRunNotRedundant(cfg, ticks[..n]);
      SpecScanNotRedundant(cfg, SpecRun(cfg, ticks[..n]), Seen(ticks[..n]), ticks[n].items, ticks[n].now);
    }
  }

  /**
   Over every run, the next update of a path, ON_CHANGE: changes the value or waits out the
   heartbeat; SAMPLE: waits out the interval, or with suppress_redundant and the same value the heartbeat.
   */
  lemma RepeatsAreJustified(cfg: Settings, ticks: seq<Tick>)
    ensures NoneRedundant(cfg, CodeRun(cfg, ticks))
  {
    CodeMatchesSpec(cfg, ticks);
    SpecRunNotRedundant(cfg, ticks);
  }

  // ------------------------------------------------------ a path that has waited

  /** Items of other paths leave what was sent of a path alone. */
  lemma {:induction false} SpecScanElsewhere(cfg: Settings, history: seq<SentAt>, seen: seq<Item>, items: seq<Item>, now: Time, p: Path)
    requires forall i :: 0 <= i < |items| && Counts(items[i]) ==> items[i].path != p
    ensures LastSent(SpecScan(cfg, history, seen, items, now), p) == LastSent(history, p)
  {
    if items != [] {
      var n := |items| - 1;
      SpecScanElsewhere(cfg, history, seen, items[..n], now, p);
      LastSentAppend(SpecScan(cfg, history, seen, items[..n], now), SentAt(now, items[n].path, items[n].v), p);
    }
  }

  /** The i-th item is the only set leaf at its path. */
  ghost predicate OnlyAt(items: seq<Item>, i: nat) {
    i < |items| && Counts(items[i]) && forall j :: 0 <= j < |items| && j != i && Counts(items[j]) ==> items[j].path != items[i].path
  }

  lemma {:induction false} SpecScanAt(cfg: Settings, history: seq<SentAt>, seen: seq<Item>, items: seq<Item>, now: Time, i: nat)
    requires OnlyAt(items, i) && LastSent(history, items[i].path).Some?
    ensures var a, b := LastSent(history, items[i].path).value, SentAt(now, items[i].path, items[i].v);
      LastSent(SpecScan(cfg, history, seen, items, now), items[i].path) == Some(if MayFollow(cfg, a, b) then b else a)
    decreases |items|
  {
    var n, p := |items| - 1, items[i].path;
    var h := SpecScan(cfg, history, seen, items[..n], now);
    LastSentAppend(h, SentAt(now, items[n].path, items[n].v), p);
    if i == n {
      SpecScanElsewhere(cfg, history, seen, items[..n], now, p);
    } else {
      SpecScanAt(cfg, history, seen, items[..n], now, i);
    }
  }

  /** And over every run a path that may be sent again is: this is its last sending after a further scan. */
  lemma SentOnceItMay(cfg: Settings, ticks: seq<Tick>, tick: Tick, i: nat)
    requires OnlyAt(tick.items, i) && LastSent(CodeRun(cfg, ticks), tick.items[i].path).Some?
    ensures var p := tick.items[i].path;
      var a, b := LastSent(CodeRun(cfg, ticks), p).value, SentAt(tick.now, p, tick.items[i].v);
      LastSent(CodeRun(cfg, ticks + [tick]), p) == Some(if MayFollow(cfg, a, b) then b else a)
  {
    CodeMatchesSpec(cfg, ticks);
    CodeMatchesSpec(cfg, ticks + [tick]);
    assert (ticks + [tick])[..|ticks|] == ticks;
    SpecScanAt(cfg, SpecRun(cfg, ticks), Seen(ticks), tick.items, tick.now, i);
  }

  /** What is no leaf, or a leaf at its default, is as if it were not there. */
  lemma {:induction false} OnlySetLeaves(cfg: Settings, cache: Cache, items: seq<Item>, now: Time)
    requires forall i :: 0 <= i < |items| ==> !items[i].leaf || items[i].dflt
    ensures Scan(cfg, cache, items, now) == (cache, [])
  {
    if items != [] { OnlySetLeaves(cfg, cache, items[..|items| - 1], now); }
  }

  /** A first sending: at once, or for SAMPLE once the interval has gone by since the epoch. */
  lemma FirstScanSends(cfg: Settings, item: Item, now: Time)
    ensures CodeRun(cfg, [Tick([item], now)]) ==
            if item.leaf && !item.dflt && (cfg.mode.OnChange? || (cfg.mode.Sample? && now >= cfg.sampleInterval))
            then [SentAt(now, item.path, item.v)] else []
  {
    var ticks := [Tick([item], now)];
    CodeMatchesSpec(cfg, ticks);
    assert ticks[..0] == [] && [item][..0] == [];
    assert SpecScan(cfg, [], [], [], now) == [];
  }
}
