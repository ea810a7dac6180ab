/**
 Id assignment in src/config_readers/bmv2_json_reader.c as values: annotated ids are reserved
 in input order, then every object requests an id in name order, an annotated one if it is
 still free, otherwise the first free slot found by probing from the hash of its name.
 The hash is any function of the name.
 */
module IdSpec {
  import opened Basics
  import opened BubbleSpec

  const SLOTS := 0x1_0000
  const WRAP32 := 0x1_0000_0000

  type TypeId = t: int | 1 <= t < 256 witness 1

  /** A named object of the JSON input and the ids its "id" annotation lists. */
  datatype Obj = Obj(name: Name, ids: seq<u32>)

  /** The two Judy sets. */
  datatype Ids = Ids(reserved: set<nat>, issued: set<nat>)

  datatype Outcome<+T> =
    | Done(value: T)
    | Exit          // exit(1) on a user error
    | AssertFailed
    | Stuck         // probes forever: no slot of the type is free

  /** (type_id << 24) | slot, for a slot that fits in 16 bits. */
  function FullId(t: TypeId, slot: nat): (id: nat)
    requires slot < SLOTS
    ensures 0 < id < WRAP32 && id / 0x100_0000 == t && id % 0x100_0000 == slot
  {
    t * 0x100_0000 + slot
  }

  /** hash_to_id. */
  function HashToId(t: TypeId, h: nat): nat {
    FullId(t, h % SLOTS)
  }

  /** The id tried after d increments of the hash. */
  function Probe(t: TypeId, h: nat, d: nat): nat {
    HashToId(t, h + d)
  }

  // --------------------------------------------------------------- reserving

  datatype Scan = Free(id: nat) | NoneFree | TooBig

  /** The loop of pre_reserve_ids over one object's ids. */
  function ScanIds(ids: seq<u32>, t: TypeId, reserved: set<nat>): (r: Scan)
    ensures r.Free? ==> r.id !in reserved
  {
    if ids == [] then NoneFree
    else if ids[0] > 0xffff then TooBig
    else if FullId(t, ids[0]) !in reserved then Free(FullId(t, ids[0]))
    else ScanIds(ids[1..], t, reserved)
  }

  /** pre_reserve_ids; `found` is its found_id flag, which is never put back to false. */
  function PreReserve(objs: seq<Obj>, t: TypeId, reserved: set<nat>, found: bool): Outcome<set<nat>> {
    if objs == [] then Done(reserved)
    else if objs[0].ids == [] then PreReserve(objs[1..], t, reserved, found)
    else match ScanIds(objs[0].ids, t, reserved)
      case TooBig => Exit
      case Free(id) => PreReserve(objs[1..], t, reserved + {id}, true)
      case NoneFree => if found then PreReserve(objs[1..], t, reserved, found) else Exit
  }

  // -------------------------------------------------------------- requesting

  /** The first unreserved slot at distance d or more from the hash, cyclically. */
  function FirstFree(reserved: set<nat>, t: TypeId, h: nat, d: nat): (r: Option<nat>)
    requires d <= SLOTS
    ensures r.Some? ==> r.value !in reserved
    decreases SLOTS - d
  {
    if d == SLOTS then None
    else if Probe(t, h, d) !in reserved then Some(Probe(t, h, d))
    else FirstFree(reserved, t, h, d + 1)
  }

  /** generate_id_from_name, with the asserts of reserve_id and allocate_id. */
  function Generate(s: Ids, t: TypeId, h: nat): Outcome<(nat, Ids)> {
    var free := FirstFree(s.reserved, t, h, 0);
    if free.None? then Stuck
    else if free.value in s.issued then AssertFailed
    else Done((free.value, Ids(s.reserved + {free.value}, s.issued + {free.value})))
  }

  /** Bitwise or. */
  function Or(a: nat, b: nat): nat {
    if a == 0 then b
    else if b == 0 then a
    else 2 * Or(a / 2, b / 2) + (if a % 2 == 1 || b % 2 == 1 then 1 else 0)
  }

  /** (type_id << 24) | id: an id of 24 bits or less sits below the type, a longer one reaches into it. */
  function ListedId(t: TypeId, id: u32): (r: nat)
    ensures id < 0x100_0000 ==> r == t * 0x100_0000 + id
  {
    Or(t, id / 0x100_0000) * 0x100_0000 + id % 0x100_0000
  }

  /** request_id. */
  function Request(s: Ids, ids: seq<u32>, t: TypeId, h: nat): Outcome<(nat, Ids)>
  {
    if ids == [] then Generate(s, t, h)
    else
      var id := ListedId(t, ids[0]);
      if id !in s.reserved then AssertFailed
      else if id !in s.issued then Done((id, s.(issued := s.issued + {id})))
      else Request(s, ids[1..], t, h)
  }

  /** The ids handed to the objects in the order they are visited. */
  function Assign(objs: seq<Obj>, s: Ids, t: TypeId, hash: Name -> u32): Outcome<seq<nat>> {
    if objs == [] then Done([])
    else match Request(s, objs[0].ids, t, hash(objs[0].name))
      case Done((id, s')) =>
        (match Assign(objs[1..], s', t, hash)
         case Done(ids) => Done([id] + ids)
         case Exit => Exit
         case AssertFailed => AssertFailed
         case Stuck => Stuck)
      case Exit => Exit
      case AssertFailed => AssertFailed
      case Stuck => Stuck
  }

  /** read_actions as far as ids go: reserve in input order, then request in sorted order. */
  function ReadIds(input: seq<Obj>, sorted: seq<Obj>, s: Ids, t: TypeId, hash: Name -> u32): Outcome<seq<nat>> {
    match PreReserve(input, t, s.reserved, false)
    case Done(reserved) => Assign(sorted, s.(reserved := reserved), t, hash)
    case Exit => Exit
    case AssertFailed => AssertFailed
    case Stuck => Stuck
  }

  // ----------------------------------------------------------- probing facts

  lemma {:induction false} FirstFreeSkipsOnlyReserved(reserved: set<nat>, t: TypeId, h: nat, d: nat)
    requires d <= SLOTS
    ensures var r := FirstFree(reserved, t, h, d);
            if r.None? then forall i :: d <= i < SLOTS ==> Probe(t, h, i) in reserved
            else exists i :: d <= i < SLOTS && r.value == Probe(t, h, i) &&
                   forall j :: d <= j < i ==> Probe(t, h, j) in reserved
    decreases SLOTS - d
  {
    if d < SLOTS && Probe(t, h, d) in reserved {
      FirstFreeSkipsOnlyReserved(reserved, t, h, d + 1);
    }
  }

  /** Probing from any hash reaches every slot. */
  lemma ProbeReaches(t: TypeId, h: nat, slot: nat) returns (d: nat)
    requires slot < SLOTS
    ensures d < SLOTS && Probe(t, h, d) == FullId(t, slot)
  {
    d := if slot >= h % SLOTS then slot - h % SLOTS else slot + SLOTS - h % SLOTS;
    assert (h + d) % SLOTS == slot;
  }

  /** A free slot of the type is always found. */
  lemma FirstFreeFinds(reserved: set<nat>, t: TypeId, h: nat, slot: nat)
    requires slot < SLOTS && FullId(t, slot) !in reserved
    ensures FirstFree(reserved, t, h, 0).Some?
  {
    FirstFreeSkipsOnlyReserved(reserved, t, h, 0);
    var d := ProbeReaches(t, h, slot);
  }

  // ------------------------------------------------- annotations of one id

  ghost predicate SingleIds(objs: seq<Obj>) {
    forall i :: 0 <= i < |objs| ==> |objs[i].ids| <= 1
  }

  ghost predicate IdsFit(objs: seq<Obj>) {
    forall i :: 0 <= i < |objs| && objs[i].ids != [] ==> objs[i].ids[0] <= 0xffff
  }

  /** The slots the annotations ask for. */
  function Annotated(objs: seq<Obj>): (r: set<nat>)
    requires IdsFit(objs)
    ensures forall k :: k in r ==> k < SLOTS
    ensures |r| <= |objs|
  {
    if objs == [] then {}
    else Annotated(objs[1..]) + if objs[0].ids == [] then {} else {objs[0].ids[0]}
  }

  function Slots(ids: set<nat>, t: TypeId): set<nat> {
    set k | 0 <= k < SLOTS && FullId(t, k) in ids
  }

  function FullIds(slots: set<nat>, t: TypeId): set<nat>
    requires forall k :: k in slots ==> k < SLOTS
  {
    set k | k in slots :: FullId(t, k)
  }

  lemma FullIdsAdd(slots: set<nat>, t: TypeId, k: nat)
    requires k < SLOTS && forall k :: k in slots ==> k < SLOTS
    ensures FullIds(slots + {k}, t) == FullIds(slots, t) + {FullId(t, k)}
  {
    assert k in slots + {k};
    forall j | j in slots ensures FullId(t, j) in FullIds(slots + {k}, t) {
      assert j in slots + {k};
    }
  }

  lemma {:induction false} AnnotatedIff(objs: seq<Obj>, k: nat)
    requires IdsFit(objs)
    ensures k in Annotated(objs) <==> exists o :: o in objs && o.ids != [] && o.ids[0] == k
  {
    if objs != [] {
      AnnotatedIff(objs[1..], k);
      assert objs == [objs[0]] + objs[1..];
    }
  }

  lemma ScanSingle(ids: seq<u32>, t: TypeId, reserved: set<nat>)
    requires |ids| == 1
    ensures ScanIds(ids, t, reserved) ==
            if ids[0] > 0xffff then TooBig
            else if FullId(t, ids[0]) !in reserved then Free(FullId(t, ids[0])) else NoneFree
  {
    assert ids[1..] == [];
  }

  /** An id above 0xffff stops the reader wherever it stands. */
  lemma {:induction false} TooBigIdExits(objs: seq<Obj>, t: TypeId, reserved: set<nat>, found: bool)
    requires SingleIds(objs) && !IdsFit(objs)
    ensures PreReserve(objs, t, reserved, found).Exit?
  {
    var o := objs[0];
    if o.ids == [] || o.ids[0] <= 0xffff {
      assert !IdsFit(objs[1..]) by {
        var i :| 0 <= i < |objs| && objs[i].ids != [] && objs[i].ids[0] > 0xffff;
        assert objs[1..][i - 1] == objs[i];
      }
      TooBigIdExits(objs[1..], t, reserved, found);
      if o.ids != [] {
        ScanSingle(o.ids, t, reserved);
        TooBigIdExits(objs[1..], t, reserved + {FullId(t, o.ids[0])}, true);
      }
    } else {
      ScanSingle(o.ids, t, reserved);
    }
  }

  /** The id of the first annotated object. */
  function FirstAnnotated(objs: seq<Obj>): Option<u32> {
    if objs == [] then None else if objs[0].ids != [] then Some(objs[0].ids[0]) else FirstAnnotated(objs[1..])
  }

  /** The first annotated id is free, or there is none. */
  predicate StartsFree(objs: seq<Obj>, t: TypeId, reserved: set<nat>) {
    match FirstAnnotated(objs)
    case None => true
    case Some(k) => k <= 0xffff && FullId(t, k) !in reserved
  }

  lemma {:induction false} FirstIsAnnotated(objs: seq<Obj>)
    requires IdsFit(objs)
    ensures match FirstAnnotated(objs)
      case None => Annotated(objs) == {}
      case Some(k) => k in Annotated(objs)
  {
    if objs != [] && objs[0].ids == [] { FirstIsAnnotated(objs[1..]); }
  }

  lemma ReserveFirst(objs: seq<Obj>, t: TypeId, reserved: set<nat>, found: bool)
    requires objs != [] && |objs[0].ids| == 1 && objs[0].ids[0] <= 0xffff
    requires found || FullId(t, objs[0].ids[0]) !in reserved
    ensures PreReserve(objs, t, reserved, found) == PreReserve(objs[1..], t, reserved + {FullId(t, objs[0].ids[0])}, true)
  {
    var id := FullId(t, objs[0].ids[0]);
    ScanSingle(objs[0].ids, t, reserved);
    if id in reserved { assert reserved + {id} == reserved; }
  }

  lemma {:induction false} PreReserveAddsAnnotated(objs: seq<Obj>, t: TypeId, reserved: set<nat>, found: bool)
    requires SingleIds(objs) && IdsFit(objs) && (found || StartsFree(objs, t, reserved))
    ensures PreReserve(objs, t, reserved, found) == Done(reserved + FullIds(Annotated(objs), t))
  {
    if objs == [] {
      assert FullIds({}, t) == {} && reserved + {} == reserved;
    } else if objs[0].ids == [] {
      PreReserveAddsAnnotated(objs[1..], t, reserved, found);
      assert Annotated(objs) == Annotated(objs[1..]);
    } else {
      ReserveFirst(objs, t, reserved, found);
      PreReserveAddsAnnotated(objs[1..], t, reserved + {FullId(t, objs[0].ids[0])}, true);
      AddedFirst(objs, t, reserved);
    }
  }

  lemma AddedFirst(objs: seq<Obj>, t: TypeId, reserved: set<nat>)
    requires IdsFit(objs) && objs != [] && objs[0].ids != []
    ensures IdsFit(objs[1..])
    ensures reserved + {FullId(t, objs[0].ids[0])} + FullIds(Annotated(objs[1..]), t) == reserved + FullIds(Annotated(objs), t)
  {
    FullIdsAdd(Annotated(objs[1..]), t, objs[0].ids[0]);
  }

  lemma {:induction false} TakenFirstIdExits(objs: seq<Obj>, t: TypeId, reserved: set<nat>)
    requires SingleIds(objs) && IdsFit(objs) && !StartsFree(objs, t, reserved)
    ensures PreReserve(objs, t, reserved, false).Exit?
  {
    if objs[0].ids == [] {
      TakenFirstIdExits(objs[1..], t, reserved);
    } else {
      ScanSingle(objs[0].ids, t, reserved);
    }
  }

  /**
   pre_reserve_ids with at most one id each, whatever was reserved before: it goes through exactly
   if all ids fit and the first annotated object's is free, because its flag stays set from then
   on; and then exactly the annotated ids are added.
   */
  lemma PreReserveIff(objs: seq<Obj>, t: TypeId, reserved: set<nat>)
    requires SingleIds(objs)
    ensures PreReserve(objs, t, reserved, false) ==
            if IdsFit(objs) && StartsFree(objs, t, reserved) then Done(reserved + FullIds(Annotated(objs), t)) else Exit
  {
    if !IdsFit(objs) {
      TooBigIdExits(objs, t, reserved, false);
    } else if StartsFree(objs, t, reserved) {
      PreReserveAddsAnnotated(objs, t, reserved, false);
    } else {
      TakenFirstIdExits(objs, t, reserved);
    }
  }

  ghost predicate Permuted(a: seq<Obj>, b: seq<Obj>) {
    multiset(a) == multiset(b)
  }

  ghost predicate AllFree(slots: set<nat>, t: TypeId, reserved: set<nat>)
    requires forall k :: k in slots ==> k < SLOTS
  {
    forall k :: k in slots ==> FullId(t, k) !in reserved
  }

  ghost predicate AllTaken(slots: set<nat>, t: TypeId, reserved: set<nat>)
    requires forall k :: k in slots ==> k < SLOTS
  {
    forall k :: k in slots ==> FullId(t, k) in reserved
  }

  /** All annotated ids are free, or all are taken, or one does not fit. */
  ghost predicate OrderCannotMatter(objs: seq<Obj>, t: TypeId, reserved: set<nat>) {
    IdsFit(objs) ==> AllFree(Annotated(objs), t, reserved) || AllTaken(Annotated(objs), t, reserved)
  }

  lemma SameOutcome(a: seq<Obj>, b: seq<Obj>, t: TypeId, reserved: set<nat>)
    requires SingleIds(a) && Permuted(a, b) && OrderCannotMatter(a, t, reserved)
    ensures PreReserve(a, t, reserved, false) == PreReserve(b, t, reserved, false)
  {
    SamePermutedAnnotations(a, b);
    PreReserveIff(a, t, reserved);
    PreReserveIff(b, t, reserved);
    if IdsFit(a) {
      FirstIsAnnotated(a);
      FirstIsAnnotated(b);
    }
  }

  /** An arrangement that begins with the object whose id is k. */
  lemma BeginWith(a: seq<Obj>, k: nat) returns (b: seq<Obj>)
    requires IdsFit(a) && k in Annotated(a)
    ensures Permuted(a, b) && FirstAnnotated(b) == Some(k)
  {
    AnnotatedIff(a, k);
    var i :| 0 <= i < |a| && a[i].ids != [] && a[i].ids[0] == k;
    b := [a[i]] + (a[..i] + a[i + 1..]);
    assert a == a[..i] + ([a[i]] + a[i + 1..]);
  }

  lemma OtherOutcome(a: seq<Obj>, t: TypeId, reserved: set<nat>) returns (b: seq<Obj>)
    requires SingleIds(a) && !OrderCannotMatter(a, t, reserved)
    ensures Permuted(a, b) && PreReserve(a, t, reserved, false) != PreReserve(b, t, reserved, false)
  {
    var free :| free in Annotated(a) && FullId(t, free) !in reserved;
    var taken :| taken in Annotated(a) && FullId(t, taken) in reserved;
    b := BeginWith(a, if StartsFree(a, t, reserved) then taken else free);
    SamePermutedAnnotations(a, b);
    PreReserveIff(a, t, reserved);
    PreReserveIff(b, t, reserved);
  }

  /** Reserving does not depend on the order of the objects exactly if all ids are free, all taken, or one too big. */
  lemma ReservingIsOrderFreeIff(a: seq<Obj>, t: TypeId, reserved: set<nat>)
    requires SingleIds(a)
    ensures (forall b :: Permuted(a, b) ==> PreReserve(a, t, reserved, false) == PreReserve(b, t, reserved, false)) <==>
            OrderCannotMatter(a, t, reserved)
  {
    if OrderCannotMatter(a, t, reserved) {
      forall b | Permuted(a, b) ensures PreReserve(a, t, reserved, false) == PreReserve(b, t, reserved, false) {
        SameOutcome(a, b, t, reserved);
      }
    } else {
      var b := OtherOutcome(a, t, reserved);
    }
  }

  /** With id 5 taken: asking for 5 and then 6 ends the reader, asking for 6 and then 5 does not. */
  lemma OrderCanMatter(t: TypeId)
    ensures var b, c, reserved := Obj([98], [5]), Obj([99], [6]), {FullId(t, 5)};
      PreReserve([b, c], t, reserved, false).Exit? && PreReserve([c, b], t, reserved, false).Done?
  {
    var b, c, reserved := Obj([98], [5]), Obj([99], [6]), {FullId(t, 5)};
    PreReserveIff([b, c], t, reserved);
    PreReserveIff([c, b], t, reserved);
  }

  lemma SamePermutedAnnotations(a: seq<Obj>, b: seq<Obj>)
    requires multiset(a) == multiset(b)
    ensures SingleIds(a) <==> SingleIds(b)
    ensures IdsFit(a) <==> IdsFit(b)
    ensures IdsFit(a) ==> Annotated(a) == Annotated(b)
  {
    SameElements(a, b);
    assert (forall o :: o in a ==> |o.ids| <= 1) <==> SingleIds(a);
    assert (forall o :: o in b ==> |o.ids| <= 1) <==> SingleIds(b);
    assert (forall o :: o in a && o.ids != [] ==> o.ids[0] <= 0xffff) <==> IdsFit(a);
    assert (forall o :: o in b && o.ids != [] ==> o.ids[0] <= 0xffff) <==> IdsFit(b);
    if IdsFit(a) {
      forall k ensures k in Annotated(a) <==> k in Annotated(b) {
        if k >= 0 {
          AnnotatedIff(a, k);
          AnnotatedIff(b, k);
        }
      }
    }
  }

  // ----------------------------------------------------- order independence

  /** No id of this type has been given out or reserved before. */
  ghost predicate FreshType(s: Ids, t: TypeId) {
    Slots(s.reserved, t) == {} && Slots(s.issued, t) == {}
  }

  ghost predicate SortedFrom(input: seq<Obj>, sorted: seq<Obj>) {
    Sorted(sorted, ByName) && multiset(sorted) == multiset(input)
  }

  function NameOf(o: Obj): Name {
    o.name
  }

  const ByName := Ranking(NameOf, AtMost)

  lemma FreshSlots(s: Ids, t: TypeId, k: nat)
    requires FreshType(s, t) && k < SLOTS
    ensures FullId(t, k) !in s.reserved && FullId(t, k) !in s.issued
  {
    assert k !in Slots(s.reserved, t) && k !in Slots(s.issued, t);
  }

  lemma PreReserveOnFresh(input: seq<Obj>, s: Ids, t: TypeId)
    requires FreshType(s, t) && SingleIds(input)
    ensures PreReserve(input, t, s.reserved, false) ==
            if IdsFit(input) then Done(s.reserved + FullIds(Annotated(input), t)) else Exit
  {
    PreReserveIff(input, t, s.reserved);
    if IdsFit(input) {
      FirstIsAnnotated(input);
      forall k | k in Annotated(input) ensures FullId(t, k) !in s.reserved {
        FreshSlots(s, t, k);
      }
    }
  }

  /**
   The order of the objects in the input does not matter: with distinct names and at most
   one annotated id each, any two arrangements of them give every name the same id.
   */
  lemma OrderIndependence(a: seq<Obj>, b: seq<Obj>, sa: seq<Obj>, sb: seq<Obj>, s: Ids, t: TypeId, hash: Name -> u32)
    requires multiset(a) == multiset(b) && DistinctNames(a, ByName) && SingleIds(a)
    requires SortedFrom(a, sa) && SortedFrom(b, sb) && FreshType(s, t)
    ensures sa == sb && ReadIds(a, sa, s, t, hash) == ReadIds(b, sb, s, t, hash)
  {
    StrcmpIsTotalOrder();
    PermutedStaysDistinct(a, sa, ByName);
    SortedIsUnique(sa, sb, ByName);
    SamePermutedAnnotations(a, b);
    PreReserveOnFresh(a, s, t);
    PreReserveOnFresh(b, s, t);
  }
}
