/**
 Reading objects that are spread over pipelines (extract_from_pipelines of
 src/config_readers/bmv2_json_reader.c): ids are reserved pipeline by pipeline, each time with
 the found_id flag down again, before anything is requested.
 */
module IdPipelines {
  import opened Basics
  import opened BubbleSpec
  import opened IdSpec
  import opened IdSafety
  import opened IdReader

  function ReservePipelines(pipes: seq<seq<Obj>>, t: TypeId, reserved: set<nat>): Outcome<set<nat>> {
    if pipes == [] then Done(reserved)
    else
      match PreReserve(pipes[0], t, reserved, false)
      case Done(more) => ReservePipelines(pipes[1..], t, more)
      case Exit => Exit
      case AssertFailed => AssertFailed
      case Stuck => Stuck
  }

  /** All objects, pipeline after pipeline. */
  function AllOf(pipes: seq<seq<Obj>>): seq<Obj> {
    if pipes == [] then [] else pipes[0] + AllOf(pipes[1..])
  }

  /** Reserving over all pipelines, then requesting in sorted order. */
  function ReadPipelines(pipes: seq<seq<Obj>>, sorted: seq<Obj>, s: Ids, t: TypeId, hash: Name -> u32): Outcome<seq<nat>> {
    match ReservePipelines(pipes, t, s.reserved)
    case Done(reserved) => Assign(sorted, s.(reserved := reserved), t, hash)
    case Exit => Exit
    case AssertFailed => AssertFailed
    case Stuck => Stuck
  }

  /** The loop over the pipelines. */
  method ReserveAll(state: ReaderState, t: TypeId, pipes: seq<seq<Obj>>) returns (ok: bool)
    modifies state`reserved
    ensures ReservePipelines(pipes, t, old(state.reserved)) == if ok then Done(state.reserved) else Exit
  {
    var todo := pipes;
    while todo != []
      invariant ReservePipelines(pipes, t, old(state.reserved)) == ReservePipelines(todo, t, state.reserved)
    {
      ok := state.PreReserveIds(t, todo[0]);
      if !ok {
        return false;
      }
      todo := todo[1..];
    }
    return true;
  }

  predicate AllSingle(pipes: seq<seq<Obj>>) {
    pipes == [] || ((forall i :: 0 <= i < |pipes[0]| ==> |pipes[0][i].ids| <= 1) && AllSingle(pipes[1..]))
  }

  ghost predicate AllFit(pipes: seq<seq<Obj>>) {
    pipes == [] || (IdsFit(pipes[0]) && AllFit(pipes[1..]))
  }

  function AllAnnotated(pipes: seq<seq<Obj>>): (r: set<nat>)
    requires AllFit(pipes)
    ensures forall k :: k in r ==> k < SLOTS
  {
    if pipes == [] then {} else Annotated(pipes[0]) + AllAnnotated(pipes[1..])
  }

  /** The first annotated id of each pipeline is none that an earlier one asks for. */
  predicate FirstsAreNew(pipes: seq<seq<Obj>>, taken: set<nat>)
    requires AllFit(pipes)
  {
    pipes == [] ||
    ((match FirstAnnotated(pipes[0]) case None => true case Some(k) => k !in taken)
     && FirstsAreNew(pipes[1..], taken + Annotated(pipes[0])))
  }

  /** Exactly the slots `taken` of the type are reserved. */
  ghost predicate TakenSlots(reserved: set<nat>, t: TypeId, taken: set<nat>) {
    forall k :: 0 <= k < SLOTS ==> (FullId(t, k) in reserved <==> k in taken)
  }

  lemma StartsFreeIff(objs: seq<Obj>, t: TypeId, reserved: set<nat>, taken: set<nat>)
    requires IdsFit(objs) && TakenSlots(reserved, t, taken)
    ensures StartsFree(objs, t, reserved) <==> match FirstAnnotated(objs) case None => true case Some(k) => k !in taken
  {
    FirstIsAnnotated(objs);
  }

  lemma MoreTaken(reserved: set<nat>, t: TypeId, taken: set<nat>, slots: set<nat>)
    requires TakenSlots(reserved, t, taken) && forall k :: k in slots ==> k < SLOTS
    ensures TakenSlots(reserved + FullIds(slots, t), t, taken + slots)
  {
    forall k | 0 <= k < SLOTS ensures FullId(t, k) in reserved + FullIds(slots, t) <==> k in taken + slots {
      if k in slots { assert FullId(t, k) in FullIds(slots, t); }
    }
  }

  lemma JoinedFullIds(a: set<nat>, b: set<nat>, t: TypeId)
    requires (forall k :: k in a ==> k < SLOTS) && forall k :: k in b ==> k < SLOTS
    ensures FullIds(a + b, t) == FullIds(a, t) + FullIds(b, t)
  {
    forall k | k in a ensures FullId(t, k) in FullIds(a + b, t) { assert k in a + b; }
    forall k | k in b ensures FullId(t, k) in FullIds(a + b, t) { assert k in a + b; }
  }

  /** Reserving over pipelines goes through exactly if all ids fit and no pipeline begins with an id asked for before. */
  lemma {:induction false} ReservePipelinesIff(pipes: seq<seq<Obj>>, t: TypeId, reserved: set<nat>, taken: set<nat>)
    requires AllSingle(pipes) && TakenSlots(reserved, t, taken)
    ensures ReservePipelines(pipes, t, reserved) ==
      if AllFit(pipes) && FirstsAreNew(pipes, taken) then Done(reserved + FullIds(AllAnnotated(pipes), t)) else Exit
    decreases |pipes|
  {
    if pipes == [] {
      assert FullIds({}, t) == {} && reserved + {} == reserved;
    } else {
      PreReserveIff(pipes[0], t, reserved);
      if IdsFit(pipes[0]) {
        var here := Annotated(pipes[0]);
        StartsFreeIff(pipes[0], t, reserved, taken);
        MoreTaken(reserved, t, taken, here);
        ReservePipelinesIff(pipes[1..], t, reserved + FullIds(here, t), taken + here);
        if AllFit(pipes) {
          JoinedFullIds(here, AllAnnotated(pipes[1..]), t);
          assert reserved + FullIds(here, t) + FullIds(AllAnnotated(pipes[1..]), t) == reserved + FullIds(AllAnnotated(pipes), t);
        }
      }
    }
  }

  lemma SingleConcat(a: seq<Obj>, b: seq<Obj>)
    ensures SingleIds(a + b) <==> SingleIds(a) && SingleIds(b)
  {
    assert forall i :: 0 <= i < |a| ==> (a + b)[i] == a[i];
    assert forall i :: 0 <= i < |b| ==> (a + b)[|a| + i] == b[i];
  }

  lemma FitConcat(a: seq<Obj>, b: seq<Obj>)
    ensures IdsFit(a + b) <==> IdsFit(a) && IdsFit(b)
  {
    assert forall i :: 0 <= i < |a| ==> (a + b)[i] == a[i];
    assert forall i :: 0 <= i < |b| ==> (a + b)[|a| + i] == b[i];
  }

  lemma {:induction false} AnnotatedConcat(a: seq<Obj>, b: seq<Obj>)
    requires IdsFit(a) && IdsFit(b) && IdsFit(a + b)
    ensures Annotated(a + b) == Annotated(a) + Annotated(b)
    decreases |a|
  {
    if a == [] {
      assert a + b == b;
    } else {
      assert (a + b)[1..] == a[1..] + b;
      AnnotatedConcat(a[1..], b);
    }
  }

  lemma {:induction false} AllTogether(pipes: seq<seq<Obj>>)
    ensures AllSingle(pipes) <==> SingleIds(AllOf(pipes))
    ensures AllFit(pipes) <==> IdsFit(AllOf(pipes))
    ensures AllFit(pipes) ==> Annotated(AllOf(pipes)) == AllAnnotated(pipes)
    decreases |pipes|
  {
    if pipes != [] {
      AllTogether(pipes[1..]);
      SingleConcat(pipes[0], AllOf(pipes[1..]));
      FitConcat(pipes[0], AllOf(pipes[1..]));
      if AllFit(pipes) { AnnotatedConcat(pipes[0], AllOf(pipes[1..])); }
    }
  }

  /**
   The whole read over pipelines, for a type none of whose ids are in use and at most one id per
   annotation: it exits exactly if an id exceeds 0xffff or some pipeline's first annotated id is
   one that an earlier pipeline asks for; otherwise no assertion fails, it finishes exactly if
   there are at most 65536 objects, and the ids are distinct, nonzero and of the type.
   */
  lemma ReadPipelinesSafe(pipes: seq<seq<Obj>>, sorted: seq<Obj>, s: Ids, t: TypeId, hash: Name -> u32)
    requires FreshType(s, t) && AllSingle(pipes) && multiset(sorted) == multiset(AllOf(pipes))
    ensures var r := ReadPipelines(pipes, sorted, s, t, hash);
      && (r.Exit? <==> !(AllFit(pipes) && FirstsAreNew(pipes, {})))
      && !r.AssertFailed?
      && (r.Done? <==> AllFit(pipes) && FirstsAreNew(pipes, {}) && |AllOf(pipes)| <= SLOTS)
      && (r.Done? ==> |r.value| == |sorted| && Distinct(r.value) && AllOfType(r.value, t))
  {
    var input := AllOf(pipes);
    AllTogether(pipes);
    forall k | 0 <= k < SLOTS ensures FullId(t, k) !in s.reserved { FreshSlots(s, t, k); }
    ReservePipelinesIff(pipes, t, s.reserved, {});
    assert |sorted| == |multiset(sorted)| == |multiset(input)| == |input|;
    if AllFit(pipes) && FirstsAreNew(pipes, {}) {
      BetweenAtStart(input, sorted, s, t);
      AssignSafe(sorted, s.(reserved := s.reserved + FullIds(Annotated(input), t)), t, hash);
    }
  }

  /**
   Where the order matters is only in whether the reader ends: with distinct names, any two
   arrangements of the objects over pipelines that both get through give every name the same id.
   */
  lemma PipelineOrderIndependence(
      a: seq<seq<Obj>>, b: seq<seq<Obj>>, sa: seq<Obj>, sb: seq<Obj>, s: Ids, t: TypeId, hash: Name -> u32)
    requires Permuted(AllOf(a), AllOf(b)) && DistinctNames(AllOf(a), ByName) && AllSingle(a)
    requires SortedFrom(AllOf(a), sa) && SortedFrom(AllOf(b), sb) && FreshType(s, t)
    requires !ReservePipelines(a, t, s.reserved).Exit? && !ReservePipelines(b, t, s.reserved).Exit?
    ensures sa == sb && ReadPipelines(a, sa, s, t, hash) == ReadPipelines(b, sb, s, t, hash)
  {
    StrcmpIsTotalOrder();
    PermutedStaysDistinct(AllOf(a), sa, ByName);
    SortedIsUnique(sa, sb, ByName);
    SamePermutedAnnotations(AllOf(a), AllOf(b));
    AllTogether(a);
    AllTogether(b);
    forall k | 0 <= k < SLOTS ensures FullId(t, k) !in s.reserved { FreshSlots(s, t, k); }
    ReservePipelinesIff(a, t, s.reserved, {});
    ReservePipelinesIff(b, t, s.reserved, {});
  }

  /** Two inputs that differ only in the order within the second pipeline, and in how the read ends. */
  lemma OrderWithinAPipelineMatters(s: Ids, t: TypeId, hash: Name -> u32)
    requires FreshType(s, t)
    ensures var a, b, c := Obj([97], [5]), Obj([98], [5]), Obj([99], [6]);
      && ReadPipelines([[a], [b, c]], [a, b, c], s, t, hash).Exit?
      && ReadPipelines([[a], [c, b]], [a, b, c], s, t, hash).Done?
  {
    var a, b, c := Obj([97], [5]), Obj([98], [5]), Obj([99], [6]);
    ThreeRead(a, b, c, [a, b, c], s, t, hash);
    ThreeRead(a, c, b, [a, b, c], s, t, hash);
  }

  lemma ThreeRead(a: Obj, b: Obj, c: Obj, sorted: seq<Obj>, s: Ids, t: TypeId, hash: Name -> u32)
    requires |a.ids| == |b.ids| == |c.ids| == 1 && a.ids[0] <= 0xffff && b.ids[0] <= 0xffff && c.ids[0] <= 0xffff
    requires FreshType(s, t) && multiset(sorted) == multiset([a, b, c])
    ensures ReadPipelines([[a], [b, c]], sorted, s, t, hash).Done? <==> a.ids[0] != b.ids[0]
    ensures ReadPipelines([[a], [b, c]], sorted, s, t, hash).Exit? <==> a.ids[0] == b.ids[0]
  {
    ThreeObjects(a, b, c);
    ReadPipelinesSafe([[a], [b, c]], sorted, s, t, hash);
  }

  lemma ThreeObjects(a: Obj, b: Obj, c: Obj)
    requires |a.ids| == |b.ids| == |c.ids| == 1 && a.ids[0] <= 0xffff && b.ids[0] <= 0xffff && c.ids[0] <= 0xffff
    ensures var pipes := [[a], [b, c]];
      && AllSingle(pipes) && AllFit(pipes) && AllOf(pipes) == [a, b, c]
      && (FirstsAreNew(pipes, {}) <==> a.ids[0] != b.ids[0])
  {
    var pipes, last: seq<seq<Obj>> := [[a], [b, c]], [[b, c]];
    assert pipes[1..] == last && last[0] == [b, c];
    assert last[1..] == [];
    assert AllOf(last) == [b, c] + AllOf(last[1..]);
    assert AllOf(pipes) == [a] + AllOf(last);
    var taken: set<nat> := {} + Annotated([a]);
    assert [a][1..] == [] && taken == {a.ids[0]};
    assert FirstAnnotated([b, c]) == Some(b.ids[0]);
    assert FirstsAreNew(last[1..], taken + Annotated([b, c]));
    assert FirstsAreNew(last, taken) <==> b.ids[0] !in taken;
  }
}
