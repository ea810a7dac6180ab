/**
 Walking over consecutive variable-length records of a message. A step says what is read at a
 position and how many bytes further the walk goes on, or None where nothing can be read.
 */
module RecordWalk {
  import opened Basics
  import opened Wire

  /** From p on the steps read xs, one after the other, and the walk ends at q. */
  ghost predicate Walks<T>(step: nat -> Read<T>, p: nat, xs: seq<T>, q: nat)
    decreases |xs|
  {
    if xs == [] then p == q
    else step(p).Some? && step(p).value.0 == xs[0] && Walks(step, p + step(p).value.1, xs[1..], q)
  }

  // ------------------------------------------------- two walks over one message

  /** n records can be read from p on. */
  ghost predicate Passable<T>(step: nat -> Read<T>, p: nat, n: nat)
    decreases n
  {
    n > 0 ==> step(p).Some? && Passable(step, p + step(p).value.1, n - 1)
  }

  /** The positions where the walk stands. */
  ghost function Stops<T>(step: nat -> Read<T>, p: nat, n: nat): (r: seq<nat>)
    requires Passable(step, p, n)
    ensures |r| == n + 1 && r[0] == p
    decreases n
  {
    if n == 0 then [p] else [p] + Stops(step, p + step(p).value.1, n - 1)
  }

  lemma {:induction false} WalkIsPassable<T>(step: nat -> Read<T>, p: nat, xs: seq<T>, q: nat)
    requires Walks(step, p, xs, q)
    ensures Passable(step, p, |xs|) && Stops(step, p, |xs|)[|xs|] == q
    decreases |xs|
  {
    if xs != [] { WalkIsPassable(step, p + step(p).value.1, xs[1..], q); }
  }

  /** Both walks can go on and go equally far, record after record. */
  ghost predicate InStep<A, B>(f: nat -> Read<A>, g: nat -> Read<B>, p: nat, n: nat)
    decreases n
  {
    n > 0 ==> f(p).Some? && g(p).Some? && f(p).value.1 == g(p).value.1 && InStep(f, g, p + f(p).value.1, n - 1)
  }

  /** Both get through and stand at the same places. */
  ghost predicate SameStops<A, B>(f: nat -> Read<A>, g: nat -> Read<B>, p: nat, n: nat) {
    Passable(f, p, n) && Passable(g, p, n) && Stops(f, p, n) == Stops(g, p, n)
  }

  lemma SameTail(p: nat, a: seq<nat>, b: seq<nat>)
    ensures [p] + a == [p] + b <==> a == b
  {
    assert ([p] + a)[1..] == a && ([p] + b)[1..] == b;
  }

  /** Two walks over the same message visit the same positions iff their lengths agree at each. */
  lemma {:induction false} SameStopsIff<A, B>(f: nat -> Read<A>, g: nat -> Read<B>, p: nat, n: nat)
    ensures SameStops(f, g, p, n) <==> InStep(f, g, p, n)
    decreases n
  {
    if n > 0 && f(p).Some? && g(p).Some? {
      var q, q' := p + f(p).value.1, p + g(p).value.1;
      SameStopsIff(f, g, q, n - 1);
      if Passable(f, q, n - 1) && Passable(g, q', n - 1) {
        SameTail(p, Stops(f, q, n - 1), Stops(g, q', n - 1));
        assert q != q' ==> Stops(f, q, n - 1)[0] != Stops(g, q', n - 1)[0];
      }
    }
  }

  // ------------------------------------------------------------ reading back

  function Flat(es: seq<seq<byte>>): seq<byte> {
    if es == [] then [] else es[0] + Flat(es[1..])
  }

  /** The bytes e stand at position p. */
  predicate At(src: seq<byte>, p: nat, e: seq<byte>) {
    p + |e| <= |src| && src[p..p + |e|] == e
  }

  /** Wherever src has the bytes e, the step reads x and takes just those. */
  ghost predicate Decodes<T>(step: nat -> Read<T>, src: seq<byte>, e: seq<byte>, x: T) {
    forall p: nat :: At(src, p, e) ==> step(p) == Some((x, |e|))
  }

  ghost predicate DecodesAll<T>(step: nat -> Read<T>, src: seq<byte>, es: seq<seq<byte>>, xs: seq<T>) {
    |es| == |xs| && (es == [] || (Decodes(step, src, es[0], xs[0]) && DecodesAll(step, src, es[1..], xs[1..])))
  }

  lemma SplitFront(src: seq<byte>, p: nat, e: seq<byte>, later: seq<byte>, rest: seq<byte>)
    requires p <= |src| && src[p..] == (e + later) + rest
    ensures At(src, p, e) && src[p + |e|..] == later + rest
  {
    assert (e + later) + rest == e + (later + rest);
    assert src[p..p + |e|] == src[p..][..|e|];
    assert src[p + |e|..] == src[p..][|e|..];
  }

  /** Records written one after the other are walked over, up to their end. */
  lemma {:induction false} WalkBack<T>(step: nat -> Read<T>, src: seq<byte>, es: seq<seq<byte>>, xs: seq<T>, p: nat, rest: seq<byte>)
    requires DecodesAll(step, src, es, xs)
    requires p <= |src| && src[p..] == Flat(es) + rest
    ensures Walks(step, p, xs, p + |Flat(es)|)
    decreases |es|
  {
    if es != [] {
      SplitFront(src, p, es[0], Flat(es[1..]), rest);
      WalkBack(step, src, es[1..], xs[1..], p + |es[0]|, rest);
    }
  }

  /** Two readers that both decode the records written are in step on them. */
  lemma {:induction false} DecodersInStep<A, B>(
      f: nat -> Read<A>, g: nat -> Read<B>, src: seq<byte>, es: seq<seq<byte>>, xs: seq<A>, ys: seq<B>, p: nat, rest: seq<byte>)
    requires DecodesAll(f, src, es, xs) && DecodesAll(g, src, es, ys)
    requires p <= |src| && src[p..] == Flat(es) + rest
    ensures InStep(f, g, p, |es|)
    decreases |es|
  {
    if es != [] {
      SplitFront(src, p, es[0], Flat(es[1..]), rest);
      DecodersInStep(f, g, src, es[1..], xs[1..], ys[1..], p + |es[0]|, rest);
    }
  }
}
