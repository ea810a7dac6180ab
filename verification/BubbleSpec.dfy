/**
 The bubble sort of src/config_readers/bmv2_json_reader.c on sequences: byte-string order as
 strcmp defines it, one pass, all passes, and why the result is the stable sort.
 */
module BubbleSpec {
  import opened Basics

  type Name = seq<byte>

  /** strcmp(a, b) <= 0, for strings without their terminating zero. */
  predicate AtMost(a: Name, b: Name) {
    if a == [] then true
    else if b == [] then false
    else if a[0] != b[0] then a[0] < b[0]
    else AtMost(a[1..], b[1..])
  }

  /** The first byte in which a and b differ is the i-th, and a has the smaller one. */
  ghost predicate SmallerAt(a: Name, b: Name, i: nat) {
    i < |a| && i < |b| && a[..i] == b[..i] && a[i] < b[i]
  }

  /** What strcmp compares: a is a prefix of b, or has the smaller byte where they first differ. */
  lemma {:induction false} StrcmpOrder(a: Name, b: Name)
    ensures AtMost(a, b) <==> a <= b || exists i: nat :: SmallerAt(a, b, i)
    decreases |a|
  {
    if a != [] && b != [] {
      if a[0] == b[0] {
        StrcmpOrder(a[1..], b[1..]);
        PrefixCons(a, b);
        SmallerCons(a, b);
      } else if a[0] < b[0] {
        assert SmallerAt(a, b, 0);
      } else {
        forall i: nat ensures !SmallerAt(a, b, i) {
          if i > 0 && i < |a| && i < |b| { assert a[..i][0] == a[0] && b[..i][0] == b[0]; }
        }
      }
    }
  }

  lemma PrefixCons(a: Name, b: Name)
    requires a != [] && b != [] && a[0] == b[0]
    ensures a <= b <==> a[1..] <= b[1..]
  {
    assert a == [a[0]] + a[1..] && b == [b[0]] + b[1..];
  }

  lemma SmallerCons(a: Name, b: Name)
    requires a != [] && b != [] && a[0] == b[0]
    ensures (exists i: nat :: SmallerAt(a, b, i)) <==> exists i: nat :: SmallerAt(a[1..], b[1..], i)
  {
    if i: nat :| SmallerAt(a, b, i) {
      assert a[1..][..i - 1] == a[..i][1..] && b[1..][..i - 1] == b[..i][1..];
      assert SmallerAt(a[1..], b[1..], i - 1);
    }
    if i: nat :| SmallerAt(a[1..], b[1..], i) {
      assert a[..i + 1] == [a[0]] + a[1..][..i] && b[..i + 1] == [b[0]] + b[1..][..i];
      assert SmallerAt(a, b, i + 1);
    }
  }

  lemma {:induction false} Total(a: Name, b: Name)
    ensures AtMost(a, b) || AtMost(b, a)
  {
    if a != [] && b != [] && a[0] == b[0] { Total(a[1..], b[1..]); }
  }

  lemma {:induction false} Antisymmetric(a: Name, b: Name)
    requires AtMost(a, b) && AtMost(b, a)
    ensures a == b
  {
    if a != [] && b != [] {
      Antisymmetric(a[1..], b[1..]);
      assert a == [a[0]] + a[1..] && b == [b[0]] + b[1..];
    }
  }

  lemma {:induction false} Transitive(a: Name, b: Name, c: Name)
    requires AtMost(a, b) && AtMost(b, c)
    ensures AtMost(a, c)
  {
    if a != [] && a[0] == b[0] && b[0] == c[0] { Transitive(a[1..], b[1..], c[1..]); }
  }

  ghost predicate TotalOrder(le: (Name, Name) -> bool) {
    && (forall a, b :: le(a, b) || le(b, a))
    && (forall a, b :: le(a, b) && le(b, a) ==> a == b)
    && (forall a, b, c :: le(a, b) && le(b, c) ==> le(a, c))
  }

  lemma StrcmpIsTotalOrder()
    ensures TotalOrder(AtMost)
  {
    forall a, b ensures AtMost(a, b) || AtMost(b, a) { Total(a, b); }
    forall a, b | AtMost(a, b) && AtMost(b, a) ensures a == b { Antisymmetric(a, b); }
    forall a, b, c | AtMost(a, b) && AtMost(b, c) ensures AtMost(a, c) { Transitive(a, b, c); }
  }

  /** How objects are compared: by their names, under an order on names. */
  datatype Ranking<!T> = Ranking(key: T -> Name, atMost: (Name, Name) -> bool) {
    predicate Le(x: T, y: T) {
      atMost(key(x), key(y))
    }

    ghost predicate Lawful() {
      TotalOrder(atMost)
    }
  }

  /** The object left behind by one comparison: the smaller of the first two. */
  function Left<T>(s: seq<T>, o: Ranking<T>): T
    requires |s| >= 2
  {
    if o.Le(s[0], s[1]) then s[0] else s[1]
  }

  /** What is still to be walked, headed by the greater of the first two. */
  function Rest<T>(s: seq<T>, o: Ranking<T>): (r: seq<T>)
    requires |s| >= 2
    ensures |r| == |s| - 1
  {
    if o.Le(s[0], s[1]) then s[1..] else [s[0]] + s[2..]
  }

  /** One run of the inner loop: the carried object swaps past every smaller neighbour. */
  function Pass<T>(s: seq<T>, o: Ranking<T>): (r: seq<T>)
    ensures |r| == |s|
    decreases |s|
  {
    if |s| < 2 then s else [Left(s, o)] + Pass(Rest(s, o), o)
  }

  ghost predicate Sorted<T>(s: seq<T>, o: Ranking<T>) {
    forall i, j :: 0 <= i < j < |s| ==> o.Le(s[i], s[j])
  }

  ghost predicate AllAtMost<T>(s: seq<T>, t: seq<T>, o: Ranking<T>) {
    forall i, j :: 0 <= i < |s| && 0 <= j < |t| ==> o.Le(s[i], t[j])
  }

  /** The objects named n, in order. A sort is stable when this never changes. */
  function Named<T>(s: seq<T>, o: Ranking<T>, n: Name): seq<T> {
    if s == [] then [] else (if o.key(s[0]) == n then [s[0]] else []) + Named(s[1..], o, n)
  }

  // ------------------------------------------------------------- one pass

  /** One comparison moves nothing away. */
  lemma StepPermutes<T>(s: seq<T>, o: Ranking<T>)
    requires |s| >= 2
    ensures multiset([Left(s, o)] + Rest(s, o)) == multiset(s)
  {
    if o.Le(s[0], s[1]) {
      assert s == [s[0]] + s[1..];
    } else {
      assert s == [s[0]] + ([s[1]] + s[2..]);
    }
  }

  lemma ConsPermutes<T>(x: T, a: seq<T>, b: seq<T>)
    requires multiset(a) == multiset(b)
    ensures multiset([x] + a) == multiset([x] + b)
  {
  }

  lemma {:induction false} PassPermutes<T>(s: seq<T>, o: Ranking<T>)
    ensures multiset(Pass(s, o)) == multiset(s)
    decreases |s|
  {
    if |s| >= 2 {
      PassPermutes(Rest(s, o), o);
      PassUnfolds(s, o);
      StepPermutes(s, o);
      ConsPermutes(Left(s, o), Pass(Rest(s, o), o), Rest(s, o));
    }
  }

  /** The first two exchanged. */
  function Swapped<T>(s: seq<T>): (r: seq<T>)
    requires |s| >= 2
    ensures |r| == |s| && r[0] == s[1] && r[1] == s[0]
    ensures forall i :: 2 <= i < |s| ==> r[i] == s[i]
  {
    [s[1], s[0]] + s[2..]
  }

  lemma SwappedStep<T>(o: Ranking<T>, s: seq<T>)
    requires o.Lawful() && |s| >= 2 && !o.Le(s[0], s[1])
    ensures o.Le(s[1], s[0]) && Left(Swapped(s), o) == Left(s, o) && Rest(Swapped(s), o) == Rest(s, o)
  {
    assert o.Le(s[0], s[1]) || o.Le(s[1], s[0]);
    assert Swapped(s)[1..] == [s[0]] + s[2..];
  }

  /** Swapping out of order neighbours leaves the rest of the pass as it was. */
  lemma SwappedPass<T>(o: Ranking<T>, s: seq<T>)
    requires o.Lawful() && |s| >= 2 && !o.Le(s[0], s[1])
    ensures o.Le(s[1], s[0]) && Pass(Swapped(s), o) == Pass(s, o)
  {
    SwappedStep(o, s);
    PassUnfolds(Swapped(s), o);
    PassUnfolds(s, o);
  }

  lemma KeptPass<T>(o: Ranking<T>, done: seq<T>, s: seq<T>)
    requires |s| >= 2 && o.Le(s[0], s[1])
    ensures (done + [s[0]]) + Pass(s[1..], o) == done + Pass(s, o)
    ensures (done + [s[0]]) + s[1..] == done + s
  {
    PassUnfolds(s, o);
    Regroup(done, [s[0]], Pass(s[1..], o));
    Regroup(done, [s[0]], s[1..]);
    assert s == [s[0]] + s[1..];
  }

  lemma NamedCons<T>(x: T, t: seq<T>, o: Ranking<T>, n: Name)
    ensures Named([x] + t, o, n) == (if o.key(x) == n then [x] else []) + Named(t, o, n)
  {
    assert ([x] + t)[1..] == t;
  }

  lemma NamedSwap<T>(x: T, y: T, t: seq<T>, o: Ranking<T>, n: Name)
    requires o.key(x) != o.key(y)
    ensures Named([y] + ([x] + t), o, n) == Named([x] + ([y] + t), o, n)
  {
    NamedCons(y, [x] + t, o, n);
    NamedCons(x, t, o, n);
    NamedCons(x, [y] + t, o, n);
    NamedCons(y, t, o, n);
  }

  /** One comparison reorders two objects only if their names differ. */
  lemma StepIsStable<T>(s: seq<T>, o: Ranking<T>, n: Name)
    requires o.Lawful() && |s| >= 2
    ensures Named([Left(s, o)] + Rest(s, o), o, n) == Named(s, o, n)
  {
    assert o.Le(s[0], s[0]);
    if o.Le(s[0], s[1]) {
      assert [Left(s, o)] + Rest(s, o) == s;
    } else {
      NamedSwap(s[0], s[1], s[2..], o, n);
      assert s == [s[0]] + ([s[1]] + s[2..]);
    }
  }

  lemma {:induction false} PassIsStable<T>(s: seq<T>, o: Ranking<T>, n: Name)
    requires o.Lawful()
    ensures Named(Pass(s, o), o, n) == Named(s, o, n)
    decreases |s|
  {
    if |s| >= 2 {
      var l, r := Left(s, o), Rest(s, o);
      PassIsStable(r, o, n);
      NamedCons(l, Pass(r, o), o, n);
      NamedCons(l, r, o, n);
      StepIsStable(s, o, n);
      PassUnfolds(s, o);
    }
  }

  /** The pass ends on an object no smaller than the rest. */
  lemma {:induction false} PassEndsOnGreatest<T>(s: seq<T>, o: Ranking<T>)
    requires o.Lawful()
    requires s != []
    ensures forall x :: x in s ==> o.Le(x, Pass(s, o)[|s| - 1])
    decreases |s|
  {
    if |s| == 1 {
      assert o.Le(s[0], s[0]);
    } else {
      PassEndsOnGreatest(Rest(s, o), o);
      PassUnfolds(s, o);
      GreatestOfRest(s, o, Pass(s, o)[|s| - 1]);
    }
  }

  /** Nothing is lost by comparing on with the greater of the first two. */
  lemma GreatestOfRest<T>(s: seq<T>, o: Ranking<T>, last: T)
    requires o.Lawful() && |s| >= 2 && forall x :: x in Rest(s, o) ==> o.Le(x, last)
    ensures forall x :: x in s ==> o.Le(x, last)
  {
    var small, tail := Left(s, o), Rest(s, o);
    assert o.Le(s[0], s[1]) || o.Le(s[1], s[0]);
    assert tail[0] in tail;
    assert o.Le(small, tail[0]) && o.Le(tail[0], last) && o.Le(small, last);
    forall x | x in s ensures o.Le(x, last) {
      assert x == small || x in tail;
    }
  }

  lemma {:induction false} SortedUnmoved<T>(s: seq<T>, o: Ranking<T>)
    requires Sorted(s, o)
    ensures Pass(s, o) == s
  {
    if |s| >= 2 { SortedUnmoved(s[1..], o); }
  }

  lemma CarriedStays<T>(s: seq<T>, t: seq<T>, o: Ranking<T>)
    requires |s| <= 1 && Sorted(t, o) && AllAtMost(s, t, o)
    ensures Pass(s + t, o) == s + t
  {
    SortedUnmoved(s + t, o);
  }

  /** A sorted tail of greatest objects is left alone. */
  lemma {:induction false} PassKeepsTail<T>(s: seq<T>, t: seq<T>, o: Ranking<T>)
    requires Sorted(t, o) && AllAtMost(s, t, o)
    ensures Pass(s + t, o) == Pass(s, o) + t
    decreases |s|
  {
    if |s| <= 1 {
      CarriedStays(s, t, o);
    } else {
      RestKeepsOrder(s, t, o);
      PassKeepsTail(Rest(s, o), t, o);
      PassOfConcat(s, t, o);
    }
  }

  lemma PassOfConcat<T>(s: seq<T>, t: seq<T>, o: Ranking<T>)
    requires |s| >= 2 && Pass(Rest(s, o) + t, o) == Pass(Rest(s, o), o) + t
    ensures Pass(s + t, o) == Pass(s, o) + t
  {
    RestOfConcat(s, t, o);
    PassUnfolds(s + t, o);
    PassUnfolds(s, o);
    Regroup([Left(s, o)], Pass(Rest(s, o), o), t);
  }

  lemma PassUnfolds<T>(s: seq<T>, o: Ranking<T>)
    requires |s| >= 2
    ensures Pass(s, o) == [Left(s, o)] + Pass(Rest(s, o), o)
  {
  }

  lemma RestOfConcat<T>(s: seq<T>, t: seq<T>, o: Ranking<T>)
    requires |s| >= 2
    ensures Rest(s + t, o) == Rest(s, o) + t && Left(s + t, o) == Left(s, o)
  {
    assert (s + t)[1..] == s[1..] + t && (s + t)[2..] == s[2..] + t;
  }

  lemma RestKeepsOrder<T>(s: seq<T>, t: seq<T>, o: Ranking<T>)
    requires |s| >= 2 && AllAtMost(s, t, o)
    ensures AllAtMost(Rest(s, o), t, o)
  {
  }

  // ------------------------------------------------------------ all passes

  /** The last n objects are in their final places. */
  ghost predicate Settled<T>(s: seq<T>, o: Ranking<T>, n: nat)
    requires n <= |s|
  {
    Sorted(s[|s| - n..], o) && AllAtMost(s[..|s| - n], s[|s| - n..], o)
  }

  lemma PassSettlesOneMore<T>(s: seq<T>, o: Ranking<T>, n: nat)
    requires o.Lawful()
    requires n < |s| && Settled(s, o, n)
    ensures Settled(Pass(s, o), o, n + 1)
  {
    var k := |s| - n - 1;
    var h, t := s[..k + 1], s[k + 1..];
    assert s == h + t;
    PassKeepsTail(h, t, o);
    GreatestJoinsTail(h, Pass(h, o), t, o);
    JoinSettles(Pass(h, o), t, o);
  }

  lemma JoinSettles<T>(p: seq<T>, t: seq<T>, o: Ranking<T>)
    requires p != []
    requires var k := |p| - 1; Sorted([p[k]] + t, o) && AllAtMost(p[..k], [p[k]] + t, o)
    ensures Settled(p + t, o, |t| + 1)
  {
    var k := |p| - 1;
    assert (p + t)[..k] == p[..k] && (p + t)[k..] == [p[k]] + t;
  }

  lemma GreatestJoinsTail<T>(h: seq<T>, p: seq<T>, t: seq<T>, o: Ranking<T>)
    requires o.Lawful()
    requires h != [] && p == Pass(h, o) && Sorted(t, o) && AllAtMost(h, t, o)
    ensures var k := |p| - 1;
            Sorted([p[k]] + t, o) && AllAtMost(p[..k], [p[k]] + t, o)
  {
    var k := |p| - 1;
    PassPermutes(h, o);
    SameElements(p, h);
    PassEndsOnGreatest(h, o);
    assert p[k] in h;
    InheritOrder(h, t, o, p[k]);
    forall i, j | 0 <= i < k && 0 <= j < |t| + 1 ensures o.Le(p[i], ([p[k]] + t)[j]) {
      assert p[i] in h;
      InheritOrder(h, t, o, p[i]);
    }
  }

  lemma SameElements<T>(a: seq<T>, b: seq<T>)
    requires multiset(a) == multiset(b)
    ensures forall x :: x in a <==> x in b
  {
    forall x ensures x in a <==> x in b {
      assert x in a <==> x in multiset(a);
      assert x in b <==> x in multiset(b);
    }
  }

  lemma InheritOrder<T>(h: seq<T>, t: seq<T>, o: Ranking<T>, x: T)
    requires AllAtMost(h, t, o) && x in h
    ensures forall j :: 0 <= j < |t| ==> o.Le(x, t[j])
  {
  }

  /** ys holds the objects of xs, those of equal name in the same order. */
  ghost predicate StableRearrangement<T>(xs: seq<T>, ys: seq<T>, o: Ranking<T>) {
    |ys| == |xs| && multiset(ys) == multiset(xs) && forall n :: Named(ys, o, n) == Named(xs, o, n)
  }

  lemma PassRearranges<T>(xs: seq<T>, ys: seq<T>, o: Ranking<T>)
    requires o.Lawful() && StableRearrangement(xs, ys, o)
    ensures StableRearrangement(xs, Pass(ys, o), o)
  {
    PassPermutes(ys, o);
    forall n ensures Named(Pass(ys, o), o, n) == Named(xs, o, n) {
      PassIsStable(ys, o, n);
    }
  }

  /** With all but the first object settled, all are. */
  lemma SettledIsSorted<T>(s: seq<T>, o: Ranking<T>, n: nat)
    requires n <= |s| <= n + 1 && Settled(s, o, n)
    ensures Sorted(s, o)
  {
    var h, t := s[..|s| - n], s[|s| - n..];
    assert s == h + t;
  }

  // ---------------------------------------------------- distinct names: unique

  ghost predicate DistinctNames<T>(s: seq<T>, o: Ranking<T>) {
    forall i, j :: 0 <= i < j < |s| ==> o.key(s[i]) != o.key(s[j])
  }

  /** Sorted arrangements of the same distinctly named objects are equal. */
  lemma {:induction false} SortedIsUnique<T>(a: seq<T>, b: seq<T>, o: Ranking<T>)
    requires o.Lawful()
    requires Sorted(a, o) && Sorted(b, o) && multiset(a) == multiset(b) && DistinctNames(a, o)
    ensures a == b
  {
    assert |a| == |multiset(a)| && |b| == |multiset(b)|;
    if a != [] {
      SameElements(a, b);
      SameHead(a, b, o);
      SameTails(a, b);
      SortedIsUnique(a[1..], b[1..], o);
      assert a == [a[0]] + a[1..] && b == [b[0]] + b[1..];
    }
  }

  lemma SameTails<T>(a: seq<T>, b: seq<T>)
    requires a != [] && b != [] && a[0] == b[0] && multiset(a) == multiset(b)
    ensures multiset(a[1..]) == multiset(b[1..])
  {
    assert a == [a[0]] + a[1..] && b == [b[0]] + b[1..];
    assert multiset(a[1..]) == multiset(a) - multiset{a[0]};
  }

  lemma SameHead<T>(a: seq<T>, b: seq<T>, o: Ranking<T>)
    requires o.Lawful()
    requires a != [] && b != [] && Sorted(a, o) && Sorted(b, o) && DistinctNames(a, o)
    requires forall x :: x in a <==> x in b
    ensures a[0] == b[0]
  {
    assert b[0] in a && a[0] in b;
    var i :| 0 <= i < |a| && a[i] == b[0];
    var j :| 0 <= j < |b| && b[j] == a[0];
  }

  lemma PermutedStaysDistinct<T>(a: seq<T>, b: seq<T>, o: Ranking<T>)
    requires multiset(a) == multiset(b) && DistinctNames(a, o)
    ensures DistinctNames(b, o)
  {
    forall i, j | 0 <= i < j < |b| ensures o.key(b[i]) != o.key(b[j]) {
      SameElements(a, b);
      assert b[i] in a && b[j] in a;
      if o.key(b[i]) == o.key(b[j]) {
        assert b[i] == b[j];
        assert b == b[..i] + [b[i]] + b[i + 1..j] + [b[j]] + b[j + 1..];
        assert multiset(b)[b[i]] >= 2;
        OccursOnce(a, o, b[i]);
      }
    }
  }

  lemma {:induction false} OccursOnce<T>(a: seq<T>, o: Ranking<T>, x: T)
    requires DistinctNames(a, o)
    ensures multiset(a)[x] <= 1
  {
    if a != [] {
      assert a == [a[0]] + a[1..];
      OccursOnce(a[1..], o, x);
      if x == a[0] {
        assert x !in a[1..];
        assert multiset(a[1..])[x] == 0;
      }
    }
  }
}
