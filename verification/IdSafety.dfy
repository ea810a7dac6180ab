/** What the ids handed out by one read satisfy, and exactly when the read succeeds. */
module IdSafety {
  import opened Basics
  import opened BubbleSpec
  import opened IdSpec

  lemma {:induction false} AtMostSize(a: set<nat>, n: nat)
    requires forall x :: x in a ==> x < n
    ensures |a| <= n
  {
    if n > 0 {
      AtMostSize(a - {n - 1}, n - 1);
    } else {
      assert a == {};
    }
  }

  lemma {:induction false} AtLeastSize(a: set<nat>, n: nat)
    requires forall x: nat :: x < n ==> x in a
    ensures |a| >= n
  {
    if n > 0 {
      AtLeastSize(a - {n - 1}, n - 1);
    }
  }

  /** A set of slots is no larger than the slot space, and as large when no slot is missing. */
  lemma SlotCount(ids: set<nat>, t: TypeId)
    ensures |Slots(ids, t)| <= SLOTS
    ensures (forall k :: 0 <= k < SLOTS ==> FullId(t, k) in ids) ==> |Slots(ids, t)| == SLOTS
  {
    AtMostSize(Slots(ids, t), SLOTS);
    if forall k :: 0 <= k < SLOTS ==> FullId(t, k) in ids {
      forall k: nat | k < SLOTS ensures k in Slots(ids, t) {
      }
      AtLeastSize(Slots(ids, t), SLOTS);
    }
  }

  lemma {:induction false} Subset(a: set<nat>, b: set<nat>)
    requires a <= b
    ensures |a| <= |b|
  {
    assert |b| == |a| + |b - a| by { assert b == a + (b - a); }
  }

  lemma SlotAdded(ids: set<nat>, t: TypeId, k: nat)
    requires k < SLOTS
    ensures Slots(ids + {FullId(t, k)}, t) == Slots(ids, t) + {k}
    ensures FullId(t, k) !in ids ==> |Slots(ids + {FullId(t, k)}, t)| == |Slots(ids, t)| + 1
  {
    forall j | 0 <= j < SLOTS
      ensures FullId(t, j) in ids + {FullId(t, k)} <==> FullId(t, j) in ids || j == k
    {
    }
    assert Slots(ids + {FullId(t, k)}, t) == Slots(ids, t) + {k};
  }

  /** What holds between two requests, with `rest` still to be served. */
  ghost predicate Between(rest: seq<Obj>, s: Ids, t: TypeId) {
    && SingleIds(rest) && IdsFit(rest)
    && Slots(s.issued, t) <= Slots(s.reserved, t)
    && Annotated(rest) <= Slots(s.reserved, t)
    && Slots(s.reserved, t) <= Slots(s.issued, t) + Annotated(rest)
  }

  lemma BetweenTail(rest: seq<Obj>)
    requires rest != [] && SingleIds(rest) && IdsFit(rest)
    ensures SingleIds(rest[1..]) && IdsFit(rest[1..])
  {
  }

  lemma GenerateStep(rest: seq<Obj>, s: Ids, t: TypeId, h: nat)
    requires rest != [] && Between(rest, s, t)
    requires rest[0].ids == [] || FullId(t, rest[0].ids[0]) in s.issued
    ensures var r := Generate(s, t, h);
            && (r.Stuck? ==> |Slots(s.issued, t)| + |rest| > SLOTS)
            && (r.Done? ==> Served(rest, s, t, r.value.0, r.value.1))
            && (r.Stuck? || r.Done?)
  {
    var o, tail := rest[0], rest[1..];
    BetweenTail(rest);
    var free := FirstFree(s.reserved, t, h, 0);
    FirstFreeSkipsOnlyReserved(s.reserved, t, h, 0);
    assert Slots(s.reserved, t) <= Slots(s.issued, t) + Annotated(tail);
    if free.None? {
      forall k | 0 <= k < SLOTS ensures FullId(t, k) in s.reserved {
        if FullId(t, k) !in s.reserved { FirstFreeFinds(s.reserved, t, h, k); }
      }
      SlotCount(s.reserved, t);
      Subset(Slots(s.reserved, t), Slots(s.issued, t) + Annotated(tail));
    } else {
      var d :| 0 <= d < SLOTS && free.value == Probe(t, h, d);
      var k := (h + d) % SLOTS;
      assert k !in Slots(s.reserved, t);
      SlotAdded(s.reserved, t, k);
      SlotAdded(s.issued, t, k);
    }
  }

  /** The request got a new id of the type and left things as they should be for the next. */
  ghost predicate Served(rest: seq<Obj>, s: Ids, t: TypeId, id: nat, s': Ids)
    requires rest != []
  {
    && Between(rest[1..], s', t)
    && (exists k :: 0 <= k < SLOTS && id == FullId(t, k))
    && id !in s.issued && s'.issued == s.issued + {id}
    && |Slots(s'.issued, t)| == |Slots(s.issued, t)| + 1
  }

  /** The annotated id itself is still to be had. */
  lemma OwnIdStep(rest: seq<Obj>, s: Ids, t: TypeId, k: nat)
    requires rest != [] && Between(rest, s, t) && rest[0].ids == [k] && FullId(t, k) !in s.issued
    ensures FullId(t, k) in s.reserved && Served(rest, s, t, FullId(t, k), s.(issued := s.issued + {FullId(t, k)}))
  {
    BetweenTail(rest);
    assert k in Annotated(rest) && k in Slots(s.reserved, t);
    SlotAdded(s.issued, t, k);
  }

  lemma RequestIsGenerate(s: Ids, ids: seq<u32>, t: TypeId, h: nat)
    requires |ids| == 1 && ids[0] <= 0xffff && FullId(t, ids[0]) in s.reserved && FullId(t, ids[0]) in s.issued
    ensures Request(s, ids, t, h) == Generate(s, t, h)
  {
    assert ids[1..] == [];
  }

  lemma RequestStep(rest: seq<Obj>, s: Ids, t: TypeId, h: nat)
    requires rest != [] && Between(rest, s, t)
    ensures var r := Request(s, rest[0].ids, t, h);
            && (r.Stuck? ==> |Slots(s.issued, t)| + |rest| > SLOTS)
            && (r.Done? ==> Served(rest, s, t, r.value.0, r.value.1))
            && (r.Stuck? || r.Done?)
  {
    var ids := rest[0].ids;
    if ids == [] {
      GenerateStep(rest, s, t, h);
    } else if FullId(t, ids[0]) in s.issued {
      assert ids[0] in Slots(s.issued, t);
      RequestIsGenerate(s, ids, t, h);
      GenerateStep(rest, s, t, h);
    } else {
      assert ids == [ids[0]];
      OwnIdStep(rest, s, t, ids[0]);
    }
  }

  ghost predicate AllOfType(ids: seq<nat>, t: TypeId) {
    forall i :: 0 <= i < |ids| ==> exists k :: 0 <= k < SLOTS && ids[i] == FullId(t, k)
  }

  ghost predicate Distinct(ids: seq<nat>) {
    forall i, j :: 0 <= i < j < |ids| ==> ids[i] != ids[j]
  }

  /** n distinct ids of the type, none given out before. */
  ghost predicate NewIds(ids: seq<nat>, n: nat, issued: set<nat>, t: TypeId) {
    |ids| == n && AllOfType(ids, t) && Distinct(ids) && forall i :: 0 <= i < |ids| ==> ids[i] !in issued
  }

  lemma OneMoreId(id: nat, ids: seq<nat>, n: nat, issued: set<nat>, t: TypeId)
    requires NewIds(ids, n, issued + {id}, t) && id !in issued
    requires exists k :: 0 <= k < SLOTS && id == FullId(t, k)
    ensures NewIds([id] + ids, n + 1, issued, t)
  {
    var r := [id] + ids;
    forall i | 0 <= i < |r| ensures r[i] !in issued && exists k :: 0 <= k < SLOTS && r[i] == FullId(t, k) {
      if i > 0 { assert r[i] == ids[i - 1]; }
    }
    forall i, j | 0 <= i < j < |r| ensures r[i] != r[j] {
      assert r[j] == ids[j - 1];
      if i > 0 { assert r[i] == ids[i - 1]; }
    }
  }

  lemma {:induction false} AssignSafe(rest: seq<Obj>, s: Ids, t: TypeId, hash: Name -> u32)
    requires Between(rest, s, t) && |Slots(s.issued, t)| <= SLOTS
    ensures var r := Assign(rest, s, t, hash);
            && (r.Done? <==> |Slots(s.issued, t)| + |rest| <= SLOTS)
            && (r.Done? || r.Stuck?)
            && (r.Done? ==> NewIds(r.value, |rest|, s.issued, t))
  {
    if rest != [] {
      var r := Request(s, rest[0].ids, t, hash(rest[0].name));
      RequestStep(rest, s, t, hash(rest[0].name));
      if r.Done? {
        var (id, s') := r.value;
        SlotCount(s'.issued, t);
        AssignSafe(rest[1..], s', t, hash);
        var tail := Assign(rest[1..], s', t, hash);
        if tail.Done? {
          OneMoreId(id, tail.value, |rest| - 1, s.issued, t);
        }
      }
    }
  }

  lemma BetweenAtStart(input: seq<Obj>, sorted: seq<Obj>, s: Ids, t: TypeId)
    requires FreshType(s, t) && SingleIds(input) && IdsFit(input) && multiset(sorted) == multiset(input)
    ensures SingleIds(sorted) && IdsFit(sorted)
    ensures Between(sorted, s.(reserved := s.reserved + FullIds(Annotated(input), t)), t)
    ensures Slots(s.issued, t) == {}
  {
    SamePermutedAnnotations(input, sorted);
    var added := FullIds(Annotated(input), t);
    forall j | 0 <= j < SLOTS ensures FullId(t, j) in s.reserved + added <==> j in Annotated(input) {
      FreshSlots(s, t, j);
      if j in Annotated(input) { assert FullId(t, j) in added; }
    }
    assert Slots(s.reserved + added, t) == Annotated(input);
  }

  /**
   Id safety for one read of a type none of whose ids are in use, with at most one id per
   annotation: the reader exits iff some id exceeds 0xffff; otherwise no assert fires, and it
   finishes iff there are at most 65536 objects; then the ids are distinct, nonzero and carry
   the type in the top byte over a 16-bit slot.
   */
  lemma ReadIdsSafe(input: seq<Obj>, sorted: seq<Obj>, s: Ids, t: TypeId, hash: Name -> u32)
    requires FreshType(s, t) && SingleIds(input) && multiset(sorted) == multiset(input)
    ensures var r := ReadIds(input, sorted, s, t, hash);
            && (r.Exit? <==> !IdsFit(input))
            && !r.AssertFailed?
            && (r.Done? <==> IdsFit(input) && |input| <= SLOTS)
            && (r.Done? ==> |r.value| == |sorted| && Distinct(r.value) && AllOfType(r.value, t))
  {
    PreReserveOnFresh(input, s, t);
    assert |sorted| == |multiset(sorted)| == |multiset(input)| == |input|;
    if IdsFit(input) {
      BetweenAtStart(input, sorted, s, t);
      AssignSafe(sorted, s.(reserved := s.reserved + FullIds(Annotated(input), t)), t, hash);
    }
  }

  lemma RequestSparesAnnotated(rest: seq<Obj>, s: Ids, t: TypeId, h: nat, k: nat)
    requires rest != [] && Between(rest, s, t) && k in Annotated(rest) && rest[0].ids != [k]
    ensures var r := Request(s, rest[0].ids, t, h);
            r.Done? ==> r.value.0 != FullId(t, k)
  {
    var o := rest[0];
    assert k in Slots(s.reserved, t);
    if o.ids != [] {
      assert o.ids == [o.ids[0]] && o.ids[1..] == [];
    }
  }

  /** An annotated id goes to the first object, in name order, that asks for it. */
  lemma {:induction false} AnnotationHonoured(rest: seq<Obj>, s: Ids, t: TypeId, hash: Name -> u32, i: nat, k: nat)
    requires Between(rest, s, t) && i < |rest| && rest[i].ids == [k] && FullId(t, k) !in s.issued
    requires forall j :: 0 <= j < i ==> rest[j].ids != [k]
    ensures var r := Assign(rest, s, t, hash);
            r.Done? ==> i < |r.value| && r.value[i] == FullId(t, k)
  {
    var h := hash(rest[0].name);
    if i == 0 {
      AskedFirst(rest, s, t, h, k);
    } else {
      AskedLater(rest, s, t, h, i, k);
      var r := Request(s, rest[0].ids, t, h);
      if r.Done? {
        AnnotationHonoured(rest[1..], r.value.1, t, hash, i - 1, k);
      }
    }
  }

  lemma AskedFirst(rest: seq<Obj>, s: Ids, t: TypeId, h: nat, k: nat)
    requires Between(rest, s, t) && rest != [] && rest[0].ids == [k] && FullId(t, k) !in s.issued
    ensures Request(s, rest[0].ids, t, h) == Done((FullId(t, k), s.(issued := s.issued + {FullId(t, k)})))
  {
    assert k in Annotated(rest) && k in Slots(s.reserved, t);
  }

  lemma AskedLater(rest: seq<Obj>, s: Ids, t: TypeId, h: nat, i: nat, k: nat)
    requires Between(rest, s, t) && 0 < i < |rest| && rest[i].ids == [k] && rest[0].ids != [k] && FullId(t, k) !in s.issued
    ensures var r := Request(s, rest[0].ids, t, h);
      r.Done? ==> Between(rest[1..], r.value.1, t) && FullId(t, k) !in r.value.1.issued
  {
    AnnotatedIff(rest, k);
    assert rest[i] in rest;
    RequestStep(rest, s, t, h);
    RequestSparesAnnotated(rest, s, t, h, k);
  }

  /**
   With several ids in one annotation the assert in request_id can fire: "b" lists 1 and 2
   and reserves 1, "a" lists 1 and reserves nothing, then "a" is served first and takes 1.
   */
  lemma SeveralIdsCanAbort(t: TypeId, hash: Name -> u32)
    ensures var a, b := Obj([97], [1]), Obj([98], [1, 2]);
            ReadIds([b, a], [a, b], Ids({}, {}), t, hash).AssertFailed?
  {
    var a, b := Obj([97], [1]), Obj([98], [1, 2]);
    var one := FullId(t, 1);
    assert ScanIds(b.ids, t, {}) == Free(one);
    assert [b, a][1..] == [a] && [a][1..] == [] && {} + {one} == {one};
    assert PreReserve([b, a], t, {}, false) == PreReserve([a], t, {one}, true);
    ScanSingle(a.ids, t, {one});
    assert PreReserve([a], t, {one}, true) == PreReserve([], t, {one}, true) == Done({one});
    var s, s' := Ids({one}, {}), Ids({one}, {one});
    assert s.issued + {one} == {one};
    assert Request(s, a.ids, t, hash(a.name)) == Done((one, s'));
    assert b.ids[1..] == [2];
    assert Request(s', b.ids, t, hash(b.name)) == Request(s', [2], t, hash(b.name)) == AssertFailed;
    assert [a, b][1..] == [b];
    assert Assign([b], s', t, hash).AssertFailed?;
  }

  // ------------------------------------------------------- lists of any length

  predicate ListReserved(ids: seq<u32>, t: TypeId, reserved: set<nat>) {
    ids == [] || (ListedId(t, ids[0]) in reserved && ListReserved(ids[1..], t, reserved))
  }

  /** Every id that any annotation lists is reserved. */
  predicate AllListedReserved(objs: seq<Obj>, t: TypeId, reserved: set<nat>) {
    objs == [] || (ListReserved(objs[0].ids, t, reserved) && AllListedReserved(objs[1..], t, reserved))
  }

  lemma {:induction false} MoreReservedList(ids: seq<u32>, t: TypeId, a: set<nat>, b: set<nat>)
    requires ListReserved(ids, t, a) && a <= b
    ensures ListReserved(ids, t, b)
  {
    if ids != [] { MoreReservedList(ids[1..], t, a, b); }
  }

  lemma {:induction false} MoreReserved(objs: seq<Obj>, t: TypeId, a: set<nat>, b: set<nat>)
    requires AllListedReserved(objs, t, a) && a <= b
    ensures AllListedReserved(objs, t, b)
  {
    if objs != [] {
      MoreReservedList(objs[0].ids, t, a, b);
      MoreReserved(objs[1..], t, a, b);
    }
  }

  /** A request among reserved ids fails no assertion and gives out an id that was not. */
  lemma {:induction false} RequestOfReserved(s: Ids, ids: seq<u32>, t: TypeId, h: nat)
    requires ListReserved(ids, t, s.reserved) && s.issued <= s.reserved
    ensures var r := Request(s, ids, t, h);
      && (r.Done? || r.Stuck?)
      && (r.Done? ==> var (id, s') := r.value;
            && id !in s.issued && s'.issued == s.issued + {id}
            && s.reserved <= s'.reserved && s'.issued <= s'.reserved)
  {
    if ids != [] { RequestOfReserved(s, ids[1..], t, h); }
  }

  /**
   For annotations of any length: if after the reservation every listed id is reserved, and only
   reserved ids were issued, no assertion fails while ids are given out, and those given out are
   new and distinct. (The other way round it depends on where the hashes fall.)
   */
  lemma {:induction false} AssignNeverAsserts(rest: seq<Obj>, s: Ids, t: TypeId, hash: Name -> u32)
    requires AllListedReserved(rest, t, s.reserved) && s.issued <= s.reserved
    ensures var r := Assign(rest, s, t, hash);
      && (r.Done? || r.Stuck?)
      && (r.Done? ==> |r.value| == |rest| && Distinct(r.value) && forall i :: 0 <= i < |r.value| ==> r.value[i] !in s.issued)
  {
    if rest != [] {
      var h := hash(rest[0].name);
      RequestOfReserved(s, rest[0].ids, t, h);
      var r := Request(s, rest[0].ids, t, h);
      if r.Done? {
        var (id, s') := r.value;
        MoreReserved(rest[1..], t, s.reserved, s'.reserved);
        AssignNeverAsserts(rest[1..], s', t, hash);
        var tail := Assign(rest[1..], s', t, hash);
        if tail.Done? {
          StillDistinct(id, tail.value, s.issued);
        }
      }
    }
  }

  lemma StillDistinct(id: nat, ids: seq<nat>, issued: set<nat>)
    requires Distinct(ids) && id !in issued && forall i :: 0 <= i < |ids| ==> ids[i] !in issued + {id}
    ensures Distinct([id] + ids) && forall i :: 0 <= i < |[id] + ids| ==> ([id] + ids)[i] !in issued
  {
    var r := [id] + ids;
    forall i, j | 0 <= i < j < |r| ensures r[i] != r[j] {
      assert r[j] == ids[j - 1];
      if i > 0 { assert r[i] == ids[i - 1]; }
    }
    forall i | 0 <= i < |r| ensures r[i] !in issued {
      if i > 0 { assert r[i] == ids[i - 1]; }
    }
  }
}
