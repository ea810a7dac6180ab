/**
 Several subscriptions on one Subscribe stream (SubscriptionStreamMgr in
 proto/server/gnmi_sysrepo.cpp): lists are added one after the other, each subscription
 scanning at once, and a timer then scans all of them over one refreshed snapshot.
 */
module SubscriptionMgr {
  import opened Basics
  import opened Subscription

  /** A subscription: its settings, the paths under its XPath, and its cache. */
  datatype Sub = Sub(cfg: Settings, selects: iset<Path>, cache: Cache)

  // ----------------------------------------------------- writing to the stream

  datatype Message = Notification(updates: seq<Update>) | SyncResponse

  datatype Status = Ok | Unimplemented | InvalidArgument | Unknown

  /** The sanity checks on one Subscription message. */
  function CheckSettings(cfg: Settings): Status {
    match cfg.mode
    case TargetDefined => Unimplemented
    case OnChange => if cfg.sampleInterval > 0 || cfg.suppressRedundant then InvalidArgument else Ok
    case Sample => if cfg.sampleInterval == 0 then InvalidArgument else Ok
  }

  /** A subscription as requested: its XPath may fail to convert and its first scan may fail. */
  datatype Wanted = Wanted(cfg: Settings, selects: iset<Path>, xpathOk: bool, first: Option<Tick>)

  function StatusOf(w: Wanted): Status {
    if CheckSettings(w.cfg) != Ok then CheckSettings(w.cfg)
    else if !w.xpathOk then InvalidArgument
    else if w.first.None? then Unknown
    else Ok
  }

  /** One call of process: the subscription afterwards and what it writes; a failed scan does nothing. */
  function ScanOne(s: Sub, scan: Option<Tick>): (Sub, seq<Message>) {
    match scan
    case None => (s, [])
    case Some(tick) =>
      var (cache, us) := Scan(s.cfg, s.cache, tick.items, tick.now);
      (s.(cache := cache), if us == [] then [] else [Notification(us)])
  }

  /** The subscription as its first scan leaves it. */
  function Started(w: Wanted): Sub {
    ScanOne(Sub(w.cfg, w.selects, map[]), w.first).0
  }

  /** What the first scan writes. */
  function FirstMessages(w: Wanted, updatesOnly: bool): seq<Message> {
    if updatesOnly then [] else ScanOne(Sub(w.cfg, w.selects, map[]), w.first).1
  }

  /** One timer pass over the subscriptions, first to last. */
  function PassOver(subs: seq<Sub>, scans: seq<Option<Tick>>): (r: (seq<Sub>, seq<Message>))
    requires |subs| == |scans|
    ensures |r.0| == |subs|
  {
    if subs == [] then ([], [])
    else
      var (s, now) := ScanOne(subs[0], scans[0]);
      var (rest, later) := PassOver(subs[1..], scans[1..]);
      ([s] + rest, now + later)
  }

  /** add_subscription_list: the status, and the subscriptions and stream it leaves. */
  function AddList(ws: seq<Wanted>, updatesOnly: bool, subs: seq<Sub>, stream: seq<Message>)
    : (Status, seq<Sub>, seq<Message>)
  {
    if ws == [] then (Ok, subs, stream + [SyncResponse])
    else
      match StatusOf(ws[0])
      case Ok => AddList(ws[1..], updatesOnly, subs + [Started(ws[0])], stream + FirstMessages(ws[0], updatesOnly))
      case Unknown => (Unknown, subs + [Started(ws[0])], stream)
      case Unimplemented => (Unimplemented, subs, stream)
      case InvalidArgument => (InvalidArgument, subs, stream)
  }

  /** What a subscription asks for is supported and makes sense. */
  predicate Sensible(cfg: Settings) {
    || (cfg.mode.Sample? && cfg.sampleInterval > 0)
    || (cfg.mode.OnChange? && cfg.sampleInterval == 0 && !cfg.suppressRedundant)
  }

  /** The four statuses of a request. */
  lemma StatusMeans(w: Wanted)
    ensures StatusOf(w) == Unimplemented <==> w.cfg.mode.TargetDefined?
    ensures StatusOf(w) == InvalidArgument <==> !w.cfg.mode.TargetDefined? && (!Sensible(w.cfg) || !w.xpathOk)
    ensures StatusOf(w) == Unknown <==> Sensible(w.cfg) && w.xpathOk && w.first.None?
    ensures StatusOf(w) == Ok <==> Sensible(w.cfg) && w.xpathOk && w.first.Some?
  {
  }

  function AllMessages(ws: seq<Wanted>, updatesOnly: bool): seq<Message> {
    if ws == [] then [] else FirstMessages(ws[0], updatesOnly) + AllMessages(ws[1..], updatesOnly)
  }

  function AllStarted(ws: seq<Wanted>): (r: seq<Sub>)
    ensures |r| == |ws| && forall i :: 0 <= i < |ws| ==> r[i] == Started(ws[i])
  {
    seq(|ws|, i requires 0 <= i < |ws| => Started(ws[i]))
  }

  /**
   Where a list breaks off, at its first bad entry j: what came before stays, with its first
   updates written; the bad entry stays too if it was its first scan that failed; its status is
   the list's, and without one the list ends with a sync_response.
   */
  lemma {:induction false} BreaksOffAt(ws: seq<Wanted>, updatesOnly: bool, subs: seq<Sub>, stream: seq<Message>, j: nat)
    requires j <= |ws| && (forall i :: 0 <= i < j ==> StatusOf(ws[i]) == Ok) && (j < |ws| ==> StatusOf(ws[j]) != Ok)
    ensures AddList(ws, updatesOnly, subs, stream) ==
      (if j < |ws| then StatusOf(ws[j]) else Ok,
       subs + AllStarted(ws[..j]) + if j < |ws| && StatusOf(ws[j]) == Unknown then [Started(ws[j])] else [],
       stream + AllMessages(ws[..j], updatesOnly) + if j < |ws| then [] else [SyncResponse])
    decreases |ws|
  {
    if j == 0 {
      assert subs + AllStarted(ws[..0]) == subs && stream + AllMessages(ws[..0], updatesOnly) == stream;
      assert subs + [] == subs && stream + [] == stream;
    } else {
      BreaksOffAt(ws[1..], updatesOnly, subs + [Started(ws[0])], stream + FirstMessages(ws[0], updatesOnly), j - 1);
      FirstOfList(ws, updatesOnly, subs, stream, j);
    }
  }

  lemma FirstOfList(ws: seq<Wanted>, updatesOnly: bool, subs: seq<Sub>, stream: seq<Message>, j: nat)
    requires 0 < j <= |ws|
    ensures (subs + [Started(ws[0])]) + AllStarted(ws[1..][..j - 1]) == subs + AllStarted(ws[..j])
    ensures (stream + FirstMessages(ws[0], updatesOnly)) + AllMessages(ws[1..][..j - 1], updatesOnly) == stream + AllMessages(ws[..j], updatesOnly)
  {
    assert ws[..j][1..] == ws[1..][..j - 1];
    Regroup(stream, FirstMessages(ws[0], updatesOnly), AllMessages(ws[1..][..j - 1], updatesOnly));
  }

  /**
   The sync_response is the last message exactly when every subscription was accepted; until
   then only the initial updates of the accepted ones are written.
   */
  lemma {:induction false} SyncOnlyAfterAll(ws: seq<Wanted>, updatesOnly: bool, subs: seq<Sub>, stream: seq<Message>)
    ensures var (status, subs', stream') := AddList(ws, updatesOnly, subs, stream);
            && (status == Ok <==> forall w :: w in ws ==> StatusOf(w) == Ok)
            && subs <= subs' && stream <= stream'
            && (status == Ok ==> |subs'| == |subs| + |ws| && stream' != [] && stream'[|stream'| - 1] == SyncResponse)
            && (forall i :: |stream| <= i < |stream'| && stream'[i] == SyncResponse ==> status == Ok && i == |stream'| - 1)
  {
    if ws != [] {
      assert ws[0] in ws;
      if StatusOf(ws[0]) == Ok {
        SyncOnlyAfterAll(ws[1..], updatesOnly, subs + [Started(ws[0])], stream + FirstMessages(ws[0], updatesOnly));
        assert ws == [ws[0]] + ws[1..];
      }
    }
  }

  class Manager {
    var subs: seq<Sub>
    var stream: seq<Message>

    constructor ()
      ensures subs == [] && stream == []
    {
      subs, stream := [], [];
    }

    /**
     An error leaves the subscriptions added so far in place, and even the failing one if it
     was its first scan that failed.
     */
    method AddSubscriptionList(ws: seq<Wanted>, updatesOnly: bool) returns (status: Status)
      modifies this
      ensures (status, subs, stream) == AddList(ws, updatesOnly, old(subs), old(stream))
    {
      var n := 0;
      assert ws[0..] == ws;
      while n < |ws|
        invariant 0 <= n <= |ws|
        invariant AddList(ws, updatesOnly, old(subs), old(stream)) == AddList(ws[n..], updatesOnly, subs, stream)
      {
        var w := ws[n];
        assert ws[n..][0] == w && ws[n..][1..] == ws[n + 1..];
        var check := CheckSettings(w.cfg);
        if check != Ok {
          return check;
        }
        if !w.xpathOk {
          return InvalidArgument;
        }
        subs := subs + [Started(w)];
        if w.first.None? {
          return Unknown;
        }
        stream := stream + FirstMessages(w, updatesOnly);
        n := n + 1;
      }
      stream := stream + [SyncResponse];
      status := Ok;
    }

    /** The body of the timer loop: a failed scan is passed over. */
    method Refresh(scans: seq<Option<Tick>>)
      requires |scans| == |subs|
      modifies this
      ensures var (subs', written) := PassOver(old(subs), scans); subs == subs' && stream == old(stream) + written
    {
      ghost var (all, written) := PassOver(subs, scans);
      ghost var before := subs;
      var k: nat := 0;
      while k < |subs|
        invariant k <= |subs| == |before| && subs[k..] == before[k..]
        invariant subs[..k] + PassOver(before[k..], scans[k..]).0 == all
        invariant stream + PassOver(before[k..], scans[k..]).1 == old(stream) + written
      {
        var (s, now) := ScanOne(subs[k], scans[k]);
        NextInPass(before, scans, k, subs[..k], stream);
        assert subs[k] == before[k];
        SetAt(subs, k, s);
        subs := subs[k := s];
        stream := stream + now;
        k := k + 1;
      }
    }
  }

  lemma SetAt<T>(subs: seq<T>, k: nat, s: T)
    requires k < |subs|
    ensures subs[k := s][..k + 1] == subs[..k] + [s] && subs[k := s][k + 1..] == subs[k..][1..]
  {
  }

  lemma NextInPass(subs: seq<Sub>, scans: seq<Option<Tick>>, k: nat, done: seq<Sub>, stream: seq<Message>)
    requires k < |subs| == |scans|
    ensures var (s, now) := ScanOne(subs[k], scans[k]);
      var here, next := PassOver(subs[k..], scans[k..]), PassOver(subs[k + 1..], scans[k + 1..]);
      done + here.0 == (done + [s]) + next.0 && stream + here.1 == (stream + now) + next.1
  {
    assert subs[k..][1..] == subs[k + 1..] && scans[k..][1..] == scans[k + 1..];
  }
}
