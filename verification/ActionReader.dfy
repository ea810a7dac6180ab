/**
 read_actions of src/config_readers/bmv2_json_reader.c, as far as ids go, on the linked list: the
 annotated ids are reserved in the order of the input, the list is sorted in place, and ids are
 requested in the order it then has.
 */
module ActionReader {
  import opened Basics
  import opened BubbleSpec
  import opened IdSpec
  import opened IdMeaning
  import opened IdSafety
  import opened IdReader
  import J = JsonSort

  function Objs(xs: seq<J.Item>): (r: seq<Obj>)
    ensures |r| == |xs|
  {
    if xs == [] then [] else Objs(xs[..|xs| - 1]) + [Obj(xs[|xs| - 1].name, xs[|xs| - 1].ids)]
  }

  lemma {:induction false} ObjsAt(xs: seq<J.Item>, i: nat)
    requires i < |xs|
    ensures Objs(xs)[i] == Obj(xs[i].name, xs[i].ids)
    decreases |xs|
  {
    if i < |xs| - 1 { ObjsAt(xs[..|xs| - 1], i); }
  }

  lemma {:induction false} ObjsConcat(a: seq<J.Item>, b: seq<J.Item>)
    ensures Objs(a + b) == Objs(a) + Objs(b)
    decreases |b|
  {
    if b == [] {
      assert a + b == a;
    } else {
      assert (a + b)[..|a + b| - 1] == a + b[..|b| - 1];
      ObjsConcat(a, b[..|b| - 1]);
    }
  }

  lemma TakeOut<T>(front: seq<T>, x: T, a: seq<T>, b: seq<T>)
    ensures multiset(front + [x]) == multiset(a + ([x] + b)) <==> multiset(front) == multiset(a + b)
  {
    var m, n := multiset(front), multiset(a + b);
    assert multiset(front + [x]) == m + multiset{x};
    assert multiset(a + ([x] + b)) == n + multiset{x};
    assert (m + multiset{x}) - multiset{x} == m && (n + multiset{x}) - multiset{x} == n;
  }

  lemma {:induction false} ObjsPermuted(xs: seq<J.Item>, ys: seq<J.Item>)
    requires multiset(xs) == multiset(ys)
    ensures multiset(Objs(xs)) == multiset(Objs(ys))
    decreases |xs|
  {
    if xs == [] {
      assert |ys| == |multiset(ys)| == 0;
    } else {
      var x, front := xs[|xs| - 1], xs[..|xs| - 1];
      assert x in multiset(ys);
      var i :| 0 <= i < |ys| && ys[i] == x;
      var a, b := ys[..i], ys[i + 1..];
      assert ys == a + ([x] + b) && xs == front + [x];
      TakeOut(front, x, a, b);
      ObjsPermuted(front, a + b);
      ObjsAround(a, x, b);
      TakeOut(Objs(front), Obj(x.name, x.ids), Objs(a), Objs(b));
    }
  }

  lemma ObjsAround(a: seq<J.Item>, x: J.Item, b: seq<J.Item>)
    ensures Objs(a + ([x] + b)) == Objs(a) + ([Obj(x.name, x.ids)] + Objs(b)) && Objs(a + b) == Objs(a) + Objs(b)
  {
    assert [x][..0] == [];
    ObjsConcat([x], b);
    ObjsConcat(a, [x] + b);
    ObjsConcat(a, b);
  }

  lemma SortedObjs(xs: seq<J.Item>, ys: seq<J.Item>)
    requires Sorted(ys, J.ByName) && StableRearrangement(xs, ys, J.ByName)
    ensures SortedFrom(Objs(xs), Objs(ys))
  {
    ObjsPermuted(xs, ys);
    forall i, j | 0 <= i < j < |ys| ensures ByName.Le(Objs(ys)[i], Objs(ys)[j]) {
      ObjsAt(ys, i);
      ObjsAt(ys, j);
      assert J.ByName.Le(ys[i], ys[j]);
    }
  }

  /** A walk along the next pointers. */
  method Collect(a: J.JsonArray, ghost xs: seq<J.Item>) returns (objs: seq<Obj>)
    requires J.Chain(a.child, xs)
    ensures objs == Objs(xs)
  {
    objs := [];
    var item := a.child;
    ghost var n := 0;
    while item != null
      invariant 0 <= n <= |xs| && item == J.At(xs, n) && objs == Objs(xs[..n])
      decreases |xs| - n
    {
      assert xs[..n + 1][..n] == xs[..n];
      objs := objs + [Obj(item.name, item.ids)];
      item := item.next;
      n := n + 1;
    }
    assert xs[..n] == xs;
  }

  /** Requesting ids in any sorted order neither fails an assertion nor probes for ever. */
  ghost predicate Readable(input: seq<Obj>, s: Ids, t: TypeId, hash: Name -> u32) {
    forall sorted :: SortedFrom(input, sorted) ==>
      ReadIds(input, sorted, s, t, hash).Done? || ReadIds(input, sorted, s, t, hash).Exit?
  }

  /**
   The ids handed out, in the order the list ends up in. False stands for exit(1). With distinct
   names and at most one id each, every arrangement of the same objects gives them the same ids.
   */
  method ReadActions(state: ReaderState, a: J.JsonArray, t: TypeId, hash: Name -> u32, ghost xs: seq<J.Item>)
    returns (ok: bool, ids: seq<nat>, ghost ys: seq<J.Item>)
    requires J.Chain(a.child, xs) && Readable(Objs(xs), state.Get(), t, hash)
    modifies state, a, xs
    ensures !ok ==> PreReserve(Objs(xs), t, old(state.reserved), false).Exit?
    ensures ok ==> J.Chain(a.child, ys) && SortedFrom(Objs(xs), Objs(ys))
    ensures ok ==> ReadIds(Objs(xs), Objs(ys), old(state.Get()), t, hash) == Done(ids)
    ensures ok ==> PreReserve(Objs(xs), t, old(state.reserved), false).Done?
    ensures ok ==> state.Get() == StateAfter(Ids(PreReserve(Objs(xs), t, old(state.reserved), false).value, old(state.issued)), ids)
    ensures ArrangedAlike(Objs(xs), old(state.Get()), t, hash, if ok then Done(ids) else Exit)
  {
    var input := Collect(a, xs);
    ghost var s := state.Get();
    ok := state.PreReserveIds(t, input);
    if !ok {
      EveryArrangementExits(input, s, t, hash);
      return false, [], xs;
    }
    ids, ys := SortAndRequest(state, a, t, hash, xs, s);
    EveryArrangement(input, Objs(ys), s, t, hash);
  }

  /** The second half, from the sort on; s is the state before anything was reserved. */
  method SortAndRequest(state: ReaderState, a: J.JsonArray, t: TypeId, hash: Name -> u32, ghost xs: seq<J.Item>, ghost s: Ids)
    returns (ids: seq<nat>, ghost ys: seq<J.Item>)
    requires J.Chain(a.child, xs) && Readable(Objs(xs), s, t, hash)
    requires PreReserve(Objs(xs), t, s.reserved, false) == Done(state.reserved) && state.issued == s.issued
    modifies state, a, xs
    ensures J.Chain(a.child, ys) && SortedFrom(Objs(xs), Objs(ys))
    ensures ReadIds(Objs(xs), Objs(ys), s, t, hash) == Done(ids)
    ensures state.Get() == StateAfter(old(state.Get()), ids)
  {
    ys := J.SortJsonArray(a, xs);
    SortedObjs(xs, ys);
    var sorted := Collect(a, ys);
    RequestsAreServed(Objs(xs), sorted, s, t, hash, state.Get());
    ids := state.AssignIds(t, sorted, hash);
  }

  lemma {:induction false} RequestingNeverExits(objs: seq<Obj>, s: Ids, t: TypeId, hash: Name -> u32)
    ensures !Assign(objs, s, t, hash).Exit?
  {
    if objs != [] {
      var r := Request(s, objs[0].ids, t, hash(objs[0].name));
      RequestNeverExits(s, objs[0].ids, t, hash(objs[0].name));
      if r.Done? { RequestingNeverExits(objs[1..], r.value.1, t, hash); }
    }
  }

  lemma {:induction false} RequestNeverExits(s: Ids, ids: seq<u32>, t: TypeId, h: nat)
    ensures !Request(s, ids, t, h).Exit?
  {
    if ids != [] { RequestNeverExits(s, ids[1..], t, h); }
  }

  lemma RequestsAreServed(input: seq<Obj>, sorted: seq<Obj>, s: Ids, t: TypeId, hash: Name -> u32, s': Ids)
    requires Readable(input, s, t, hash) && SortedFrom(input, sorted)
    requires PreReserve(input, t, s.reserved, false) == Done(s'.reserved) && s'.issued == s.issued
    ensures ReadIds(input, sorted, s, t, hash) == Assign(sorted, s', t, hash) && Assign(sorted, s', t, hash).Done?
  {
    assert s' == s.(reserved := s'.reserved);
    RequestingNeverExits(sorted, s', t, hash);
  }

  /** Every other arrangement of the input comes to the same outcome. */
  ghost predicate ArrangedAlike(input: seq<Obj>, s: Ids, t: TypeId, hash: Name -> u32, outcome: Outcome<seq<nat>>) {
    FreshType(s, t) && DistinctNames(input, ByName) && SingleIds(input) ==>
      forall other, sorted :: Permuted(input, other) && SortedFrom(other, sorted) ==> ReadIds(other, sorted, s, t, hash) == outcome
  }

  lemma EveryArrangement(input: seq<Obj>, sorted: seq<Obj>, s: Ids, t: TypeId, hash: Name -> u32)
    requires SortedFrom(input, sorted)
    ensures ArrangedAlike(input, s, t, hash, ReadIds(input, sorted, s, t, hash))
  {
    if FreshType(s, t) && DistinctNames(input, ByName) && SingleIds(input) {
      forall other, sorted' | Permuted(input, other) && SortedFrom(other, sorted')
        ensures ReadIds(other, sorted', s, t, hash) == ReadIds(input, sorted, s, t, hash)
      {
        OrderIndependence(input, other, sorted, sorted', s, t, hash);
      }
    }
  }

  lemma EveryArrangementExits(input: seq<Obj>, s: Ids, t: TypeId, hash: Name -> u32)
    requires PreReserve(input, t, s.reserved, false).Exit?
    ensures ArrangedAlike(input, s, t, hash, Exit)
  {
    if FreshType(s, t) && SingleIds(input) {
      forall other, sorted | Permuted(input, other) && SortedFrom(other, sorted)
        ensures ReadIds(other, sorted, s, t, hash) == Exit
      {
        SamePermutedAnnotations(input, other);
        PreReserveOnFresh(input, s, t);
        PreReserveOnFresh(other, s, t);
      }
    }
  }

  /** The condition is met by a fresh type, at most one id each, and no more objects than slots. */
  lemma ReadableWhenFresh(input: seq<Obj>, s: Ids, t: TypeId, hash: Name -> u32)
    requires FreshType(s, t) && SingleIds(input) && |input| <= SLOTS
    ensures Readable(input, s, t, hash)
  {
    forall sorted | SortedFrom(input, sorted)
      ensures ReadIds(input, sorted, s, t, hash).Done? || ReadIds(input, sorted, s, t, hash).Exit?
    {
      ReadIdsSafe(input, sorted, s, t, hash);
    }
  }
}
