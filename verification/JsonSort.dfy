/**
 sort_json_array of src/config_readers/bmv2_json_reader.c on the linked list itself: items
 joined by `next` pointers, relinked through a remembered predecessor slot.
 */
module JsonSort {
  import opened Basics
  import opened BubbleSpec

  /** A named object of the list, with the ids its annotation lists. */
  class Item {
    const name: Name
    const ids: seq<u32>
    var next: Item?

    constructor (name: Name, ids: seq<u32>)
      ensures this.name == name && this.ids == ids && next == null
    {
      this.name, this.ids := name, ids;
      next := null;
    }
  }

  class JsonArray {
    var child: Item?
  }

  function NameOf(x: Item): Name {
    x.name
  }

  /** strcmp on the items' names. */
  const ByName := Ranking(NameOf, AtMost)

  /** xs are, in order, the items reached from head through the next pointers. */
  ghost predicate Chain(head: Item?, xs: seq<Item>)
    reads xs
  {
    && head == At(xs, 0)
    && (forall i, j :: 0 <= i < j < |xs| ==> xs[i] != xs[j])
    && (forall i {:trigger xs[i].next} :: 0 <= i < |xs| ==> xs[i].next == At(xs, i + 1))
  }

  ghost function At(xs: seq<Item>, i: nat): Item? {
    if i < |xs| then xs[i] else null
  }

  ghost predicate Within(s: seq<Item>, repr: set<Item>) {
    forall i :: 0 <= i < |s| ==> s[i] in repr
  }

  lemma WithinMoved(done: seq<Item>, cur: seq<Item>, repr: set<Item>)
    requires Within(done, repr) && Within(cur, repr) && cur != []
    ensures Within(done + [cur[0]], repr) && Within(cur[1..], repr)
  {
  }

  lemma SwappedWithin(cur: seq<Item>, repr: set<Item>)
    requires Within(cur, repr) && |cur| >= 2
    ensures Within(Swapped(cur), repr)
  {
  }

  /** The slot `*prev_ptr`: the array's own child pointer, or the next pointer of an item. */
  ghost predicate SlotBefore(slot: Item?, done: seq<Item>) {
    slot == if done == [] then null else done[|done| - 1]
  }

  method Size(a: JsonArray, ghost xs: seq<Item>) returns (n: nat)
    requires Chain(a.child, xs)
    ensures n == |xs|
  {
    n := 0;
    var item := a.child;
    while item != null
      invariant 0 <= n <= |xs| && item == At(xs, n)
      decreases |xs| - n
    {
      item := item.next;
      n := n + 1;
    }
  }

  /** Relinks two neighbours; the slot written through must be the one leading to the first. */
  method Swap(a: JsonArray, slot: Item?, item: Item, next: Item, ghost done: seq<Item>, ghost cur: seq<Item>,
              ghost repr: set<Item>)
    requires Chain(a.child, done + cur) && SlotBefore(slot, done)
    requires |cur| >= 2 && item == cur[0] && next == cur[1]
    requires Within(done, repr) && Within(cur, repr)
    modifies a, repr
    ensures Chain(a.child, done + Swapped(cur))
  {
    ghost var xs := done + cur;
    ghost var ys := done + Swapped(cur);
    ghost var k := |done|;
    assert xs[k] == item && xs[k + 1] == next;
    assert slot != null ==> slot == xs[k - 1];
    if slot == null {
      a.child := next;
    } else {
      slot.next := next;
    }
    item.next := next.next;
    next.next := item;
    assert a.child == At(ys, 0);
    forall i | 0 <= i < |ys| ensures ys[i].next == At(ys, i + 1) {
      if i < k - 1 || i > k + 1 {
        assert ys[i] == xs[i] && ys[i].next == old(xs[i].next);
      }
    }
    SwapKeepsDistinct(done, cur);
  }

  lemma SwapKeepsDistinct(done: seq<Item>, cur: seq<Item>)
    requires |cur| >= 2
    requires var xs := done + cur; forall i, j :: 0 <= i < j < |xs| ==> xs[i] != xs[j]
    ensures var ys := done + Swapped(cur); forall i, j :: 0 <= i < j < |ys| ==> ys[i] != ys[j]
  {
    var xs, ys, k := done + cur, done + Swapped(cur), |done|;
    forall i, j | 0 <= i < j < |ys| ensures ys[i] != ys[j] {
      var i' := if i == k then k + 1 else if i == k + 1 then k else i;
      var j' := if j == k then k + 1 else if j == k + 1 then k else j;
      assert ys[i] == xs[i'] && ys[j] == xs[j'];
    }
  }

  /**
   The inner loop's position: `done` has been passed, `cur` is headed by the item in hand.
   The remembered slot leads to that item, unless a swap has just left it stale; then the
   next comparison is between the two items just swapped and cannot swap them again.
   */
  ghost predicate Walking(a: JsonArray, slot: Item?, item: Item, done: seq<Item>, cur: seq<Item>, stale: bool,
                          o: Ranking<Item>)
    reads a, done + cur
  {
    && cur != [] && item == cur[0] && Chain(a.child, done + cur)
    && (if stale then |cur| >= 2 && o.Le(cur[0], cur[1]) else SlotBefore(slot, done))
  }

  /** The comparison finds the pair in order: the walk moves on and the slot is renewed. */
  lemma StepKeep(o: Ranking<Item>, a: JsonArray, slot: Item?, item: Item, done: seq<Item>, cur: seq<Item>, stale: bool)
    requires Walking(a, slot, item, done, cur, stale, o)
    requires |cur| >= 2 && o.Le(item, cur[1])
    ensures Walking(a, item, cur[1], done + [item], cur[1..], false, o)
    ensures (done + [item]) + Pass(cur[1..], o) == done + Pass(cur, o)
  {
    KeptPass(o, done, cur);
  }

  /** One run of the inner loop. */
  method BubbleOnce(o: Ranking<Item>, a: JsonArray, ghost xs: seq<Item>, ghost repr: set<Item>) returns (ghost ys: seq<Item>)
    requires o.Lawful() && Chain(a.child, xs) && xs != [] && Within(xs, repr)
    modifies a, repr
    ensures ys == Pass(xs, o) && Chain(a.child, ys)
  {
    var item: Item := a.child;
    var slot: Item? := null;
    ghost var done: seq<Item>, cur: seq<Item>, stale := [], xs, false;
    assert done + cur == xs;
    while item.next != null
      invariant Walking(a, slot, item, done, cur, stale, o)
      invariant Within(done, repr) && Within(cur, repr)
      invariant done + Pass(cur, o) == Pass(xs, o)
      decreases |cur|, !stale
    {
      HeadOf(done, cur);
      var next := item.next;
      if !o.Le(item, next) {
        SwappedPass(o, cur);
        SwappedWithin(cur, repr);
        Swap(a, slot, item, next, done, cur, repr);
        cur, stale := Swapped(cur), true;
      } else {
        StepKeep(o, a, slot, item, done, cur, stale);
        WithinMoved(done, cur, repr);
        done, cur, stale := done + [item], cur[1..], false;
      }
      slot := item;
      item := next;
    }
    HeadOf(done, cur);
    ys := done + cur;
  }

  /** The walked item and its successor, read off the chain. */
  lemma HeadOf(done: seq<Item>, cur: seq<Item>)
    requires cur != [] && (forall i :: 0 <= i < |done + cur| ==> (done + cur)[i].next == At(done + cur, i + 1))
    ensures cur[0].next == if |cur| >= 2 then cur[1] else null
  {
    assert (done + cur)[|done|] == cur[0];
  }

  lemma PassElements(o: Ranking<Item>, s: seq<Item>, repr: set<Item>)
    requires Within(s, repr)
    ensures Within(Pass(s, o), repr)
  {
    var p := Pass(s, o);
    PassPermutes(s, o);
    forall i | 0 <= i < |p| ensures p[i] in repr {
      assert p[i] in multiset(p);
    }
  }

  lemma OnePass(o: Ranking<Item>, xs: seq<Item>, ys: seq<Item>, n: nat, repr: set<Item>)
    requires o.Lawful() && StableRearrangement(xs, ys, o) && n < |ys| && Settled(ys, o, n) && Within(ys, repr)
    ensures var zs := Pass(ys, o); StableRearrangement(xs, zs, o) && Settled(zs, o, n + 1) && Within(zs, repr)
  {
    PassElements(o, ys, repr);
    PassRearranges(xs, ys, o);
    PassSettlesOneMore(ys, o, n);
  }

  /** size - 1 passes. */
  method BubbleAll(o: Ranking<Item>, a: JsonArray, ghost xs: seq<Item>, ghost repr: set<Item>) returns (ghost ys: seq<Item>)
    requires o.Lawful() && Chain(a.child, xs) && Within(xs, repr)
    modifies a, repr
    ensures Chain(a.child, ys) && Sorted(ys, o) && StableRearrangement(xs, ys, o)
  {
    var size: int := Size(a, xs);
    ys := xs;
    var i: int := size - 1;
    ghost var n: nat := 0;
    while i > 0
      invariant i == size - 1 - n && (if size == 0 then n == 0 else i >= 0)
      invariant StableRearrangement(xs, ys, o) && Settled(ys, o, n)
      invariant Chain(a.child, ys) && Within(ys, repr)
    {
      OnePass(o, xs, ys, n, repr);
      ys := BubbleOnce(o, a, ys, repr);
      i, n := i - 1, n + 1;
    }
    SettledIsSorted(ys, o, n);
  }

  /** Of any two, the name of the first is a prefix of the other's, or has the smaller byte where they first differ. */
  ghost predicate InStrcmpOrder(ys: seq<Item>) {
    forall i, j :: 0 <= i < j < |ys| ==> ys[i].name <= ys[j].name || exists k: nat :: SmallerAt(ys[i].name, ys[j].name, k)
  }

  lemma SortedByStrcmp(ys: seq<Item>)
    requires Sorted(ys, ByName)
    ensures InStrcmpOrder(ys)
  {
    forall i, j | 0 <= i < j < |ys|
      ensures ys[i].name <= ys[j].name || exists k: nat :: SmallerAt(ys[i].name, ys[j].name, k)
    {
      assert ByName.Le(ys[i], ys[j]);
      StrcmpOrder(ys[i].name, ys[j].name);
    }
  }

  /** The chain ends up as the stable sort by name of what it was. */
  method SortJsonArray(a: JsonArray, ghost xs: seq<Item>) returns (ghost ys: seq<Item>)
    requires Chain(a.child, xs)
    modifies a, xs
    ensures Chain(a.child, ys) && Sorted(ys, ByName) && StableRearrangement(xs, ys, ByName)
    ensures InStrcmpOrder(ys)
  {
    StrcmpIsTotalOrder();
    ys := BubbleAll(ByName, a, xs, set x | x in xs);
    SortedByStrcmp(ys);
  }
}
