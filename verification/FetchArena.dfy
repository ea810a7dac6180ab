/**
 The one memory block behind a table fetch (src/pi_tables.c): prepare_fetch_res computes how
 much an entry may need, pi_table_entries_next carves the sub-objects of an entry out of its
 share, by its own arithmetic.
 */
module FetchArena {
  import opened Arena

  /** sizeof the five structures. */
  datatype StructSizes = StructSizes(key: nat, data: nat, props: nat, header: nat, one: nat)

  /** What prepare_fetch_res finds out about a table's direct resources. */
  datatype Direct = Direct(num: nat, maxSize: nat)

  /** Room for the match key, the action data and the properties. */
  function FixedPart(z: StructSizes): nat {
    Align(Align(Align(z.key) + z.data) + z.props)
  }

  /** Where the configurations start when the structures before them start at `at`. */
  function SlotsStart(z: StructSizes, d: Direct, at: nat): nat {
    Align(Align(at + z.header) + Times(d.num, z.one))
  }

  function PerEntry(z: StructSizes, d: Direct): nat {
    if d.num == 0 then FixedPart(z) else SlotsStart(z, d, FixedPart(z)) + Times(d.num, d.maxSize)
  }

  /** The loop of prepare_fetch_res. The greatest aligned size is a true maximum. */
  method MaxAlignedSize(sizes: seq<nat>) returns (maxSize: nat)
    ensures Aligned(maxSize)
    ensures forall i :: 0 <= i < |sizes| ==> Align(sizes[i]) <= maxSize
    ensures maxSize == 0 || exists i :: 0 <= i < |sizes| && Align(sizes[i]) == maxSize
  {
    maxSize := 0;
    ZeroAligned();
    for i := 0 to |sizes|
      invariant Aligned(maxSize)
      invariant forall j :: 0 <= j < i ==> Align(sizes[j]) <= maxSize
      invariant maxSize == 0 || exists j :: 0 <= j < i && Align(sizes[j]) == maxSize
    {
      var sizeOf := Align(sizes[i]);
      AlignAligned(sizes[i]);
      if sizeOf > maxSize {
        maxSize := sizeOf;
      }
    }
  }

  /** The sums of prepare_fetch_res. */
  method PrepareFetchRes(z: StructSizes, sizes: seq<nat>) returns (d: Direct, perEntry: nat)
    ensures d.num == |sizes| && Aligned(d.maxSize)
    ensures forall i :: 0 <= i < |sizes| ==> Align(sizes[i]) <= d.maxSize
    ensures d.maxSize == 0 || exists i :: 0 <= i < |sizes| && Align(sizes[i]) == d.maxSize
    ensures perEntry == PerEntry(z, d)
  {
    perEntry := 0;
    perEntry := perEntry + z.key;
    perEntry := Align(perEntry);
    perEntry := perEntry + z.data;
    perEntry := Align(perEntry);
    perEntry := perEntry + z.props;
    perEntry := Align(perEntry);
    assert perEntry == FixedPart(z);
    var maxSize := MaxAlignedSize(sizes);
    d := Direct(|sizes|, maxSize);
    if d.num > 0 {
      perEntry := AddDirect(z, d, perEntry);
    }
  }

  method AddDirect(z: StructSizes, d: Direct, start: nat) returns (perEntry: nat)
    ensures perEntry == SlotsStart(z, d, start) + Times(d.num, d.maxSize)
  {
    perEntry := start;
    perEntry := perEntry + z.header;
    perEntry := Align(perEntry);
    perEntry := perEntry + Times(d.num, z.one);
    perEntry := Align(perEntry);
    perEntry := perEntry + Times(d.num, d.maxSize);
  }

  // ---------------------------------------------------------------- carving

  /** Key, action data (only a DATA entry has it) and properties, offsets within the entry. */
  function FixedRegions(z: StructSizes, isData: bool): seq<Region> {
    var a := Align(z.key);
    if isData then [Region(0, z.key), Region(a, z.data), Region(Align(a + z.data), z.props)]
    else [Region(0, z.key), Region(a, z.props)]
  }

  /** Where they end. */
  function FixedEnd(z: StructSizes, isData: bool): nat {
    if isData then FixedPart(z) else Align(Align(z.key) + z.props)
  }

  /** The array header and the array of n configurations. */
  function ArrayRegions(z: StructSizes, at: nat, n: nat): seq<Region> {
    [Region(at, z.header), Region(Align(at + z.header), Times(n, z.one))]
  }

  /** One slot of maxSize bytes per configuration, of which `sizes[i]` are used. */
  function Slots(maxSize: nat, at: nat, sizes: seq<nat>): seq<Region>
    decreases |sizes|
  {
    if sizes == [] then [] else [Region(at, sizes[0])] + Slots(maxSize, at + maxSize, sizes[1..])
  }

  /** Everything carved for an entry with configurations of the given sizes. */
  function Carved(z: StructSizes, d: Direct, isData: bool, sizes: seq<nat>): seq<Region> {
    if sizes == [] then FixedRegions(z, isData)
    else
      var at := FixedEnd(z, isData);
      FixedRegions(z, isData) + (ArrayRegions(z, at, |sizes|) + Slots(d.maxSize, SlotsStart(z, d, at), sizes))
  }

  function SizesIn(rs: seq<Region>): (r: seq<nat>)
    ensures |r| == |rs|
  {
    if rs == [] then [] else [rs[0].size] + SizesIn(rs[1..])
  }

  lemma {:induction false} SizesInConcat(a: seq<Region>, b: seq<Region>)
    ensures SizesIn(a + b) == SizesIn(a) + SizesIn(b)
    decreases |a|
  {
    if a == [] {
      assert a + b == b;
    } else {
      assert (a + b)[1..] == a[1..] + b;
      SizesInConcat(a[1..], b);
    }
  }

  lemma {:induction false} SlotSizes(maxSize: nat, at: nat, sizes: seq<nat>)
    ensures SizesIn(Slots(maxSize, at, sizes)) == sizes
    decreases |sizes|
  {
    if sizes != [] {
      SlotSizes(maxSize, at + maxSize, sizes[1..]);
      assert Slots(maxSize, at, sizes)[1..] == Slots(maxSize, at + maxSize, sizes[1..]);
    }
  }

  /** What is carved has room for everything: key, action data, properties, and with direct resources the list, its array and each configuration. */
  lemma CarvedSizes(z: StructSizes, d: Direct, isData: bool, sizes: seq<nat>)
    ensures SizesIn(Carved(z, d, isData, sizes)) ==
      (if isData then [z.key, z.data, z.props] else [z.key, z.props]) +
      (if sizes == [] then [] else [z.header, |sizes| * z.one] + sizes)
  {
    var at := FixedEnd(z, isData);
    var fixed, arrays, slots := FixedRegions(z, isData), ArrayRegions(z, at, |sizes|), Slots(d.maxSize, SlotsStart(z, d, at), sizes);
    FixedSizes(z, isData);
    TwoSizes(arrays[0], arrays[1]);
    TimesIsProduct(|sizes|, z.one);
    SlotSizes(d.maxSize, SlotsStart(z, d, at), sizes);
    SizesInConcat(arrays, slots);
    SizesInConcat(fixed, arrays + slots);
  }

  lemma TwoSizes(a: Region, b: Region)
    ensures SizesIn([a, b]) == [a.size, b.size]
  {
    assert [a, b][1..] == [b] && [b][1..] == [];
  }

  lemma FixedSizes(z: StructSizes, isData: bool)
    ensures SizesIn(FixedRegions(z, isData)) == if isData then [z.key, z.data, z.props] else [z.key, z.props]
  {
    var rs := FixedRegions(z, isData);
    if isData {
      TwoSizes(rs[1], rs[2]);
      assert rs[1..] == [rs[1], rs[2]];
    } else {
      TwoSizes(rs[0], rs[1]);
      assert rs == [rs[0], rs[1]];
    }
  }

  /** The configurations are of the table's direct resources, and not more than it has. */
  ghost predicate Covered(d: Direct, sizes: seq<nat>) {
    |sizes| <= d.num && AllAtMost(sizes, d.maxSize) && Aligned(d.maxSize)
  }

  ghost predicate AllAtMost(sizes: seq<nat>, most: nat) {
    sizes == [] || (sizes[0] <= most && AllAtMost(sizes[1..], most))
  }

  /** Configurations of the table's own direct resources are covered by what was prepared. */
  lemma {:induction false} ResourcesAreCovered(direct: seq<nat>, maxSize: nat, sizes: seq<nat>)
    requires forall i :: 0 <= i < |direct| ==> Align(direct[i]) <= maxSize
    requires forall j :: 0 <= j < |sizes| ==> sizes[j] in direct
    ensures AllAtMost(sizes, maxSize)
    decreases |sizes|
  {
    if sizes != [] {
      assert sizes[0] in direct;
      ResourcesAreCovered(direct, maxSize, sizes[1..]);
    }
  }

  lemma TwoLaidOut(at0: nat, size0: nat, at1: nat, size1: nat, hi: nat)
    requires Aligned(at0) && at0 + size0 <= at1 && Aligned(at1) && at1 + size1 <= hi
    ensures LaidOut([Region(at0, size0), Region(at1, size1)], at0, hi)
  {
    LaidOutCons(Region(at1, size1), [], at1, at1 + size1, hi);
    LaidOutCons(Region(at0, size0), [Region(at1, size1)], at0, at1, hi);
    assert [Region(at0, size0), Region(at1, size1)] == [Region(at0, size0)] + [Region(at1, size1)];
  }

  lemma ThreeLaidOut(size0: nat, at1: nat, size1: nat, at2: nat, size2: nat, hi: nat)
    requires size0 <= at1 && Aligned(at1) && at1 + size1 <= at2 && Aligned(at2) && at2 + size2 <= hi
    ensures LaidOut([Region(0, size0), Region(at1, size1), Region(at2, size2)], 0, hi)
  {
    ZeroAligned();
    TwoLaidOut(at1, size1, at2, size2, hi);
    LaidOutCons(Region(0, size0), [Region(at1, size1), Region(at2, size2)], 0, at1, hi);
    assert [Region(0, size0), Region(at1, size1), Region(at2, size2)] ==
           [Region(0, size0)] + [Region(at1, size1), Region(at2, size2)];
  }

  lemma FixedEndBound(z: StructSizes, isData: bool)
    ensures Aligned(FixedEnd(z, isData)) && FixedEnd(z, isData) <= FixedPart(z)
  {
    var a := Align(z.key);
    AlignAligned(a + z.props);
    AlignAligned(Align(a + z.data) + z.props);
    AlignMonotone(a + z.props, Align(a + z.data) + z.props);
  }

  lemma FixedLaidOut(z: StructSizes, isData: bool)
    ensures LaidOut(FixedRegions(z, isData), 0, FixedEnd(z, isData))
    ensures Aligned(FixedEnd(z, isData)) && FixedEnd(z, isData) <= FixedPart(z)
  {
    var a := Align(z.key);
    AlignAligned(z.key);
    AlignAligned(a + z.data);
    FixedEndBound(z, isData);
    if isData {
      ThreeLaidOut(z.key, a, z.data, Align(a + z.data), z.props, FixedEnd(z, isData));
    } else {
      ZeroAligned();
      TwoLaidOut(0, z.key, a, z.props, FixedEnd(z, isData));
    }
  }

  lemma {:induction false} SlotsLaidOut(maxSize: nat, at: nat, sizes: seq<nat>)
    requires Aligned(at) && Aligned(maxSize) && AllAtMost(sizes, maxSize)
    ensures LaidOut(Slots(maxSize, at, sizes), at, at + Times(|sizes|, maxSize))
    decreases |sizes|
  {
    if sizes != [] {
      AlignedSum(at, maxSize);
      SlotsLaidOut(maxSize, at + maxSize, sizes[1..]);
      LaidOutCons(Region(at, sizes[0]), Slots(maxSize, at + maxSize, sizes[1..]), at, at + maxSize, at + Times(|sizes|, maxSize));
    }
  }

  lemma ArrayLaidOut(z: StructSizes, d: Direct, at: nat, n: nat)
    requires n <= d.num && Aligned(at)
    ensures LaidOut(ArrayRegions(z, at, n), at, SlotsStart(z, d, at))
  {
    TimesMonotone(n, d.num, z.one);
    AlignAligned(at + z.header);
    TwoLaidOut(at, z.header, Align(at + z.header), Times(n, z.one), SlotsStart(z, d, at));
  }

  lemma SlotsStartAligned(z: StructSizes, d: Direct, at: nat)
    ensures Aligned(SlotsStart(z, d, at))
  {
    AlignAligned(Align(at + z.header) + Times(d.num, z.one));
  }

  lemma SlotsStartMonotone(z: StructSizes, d: Direct, a: nat, b: nat)
    requires a <= b
    ensures SlotsStart(z, d, a) <= SlotsStart(z, d, b)
  {
    AlignMonotone(a + z.header, b + z.header);
    AlignMonotonePast(Align(a + z.header), Align(b + z.header), Times(d.num, z.one));
  }

  lemma AlignMonotonePast(a: nat, b: nat, n: nat)
    requires a <= b
    ensures Align(a + n) <= Align(b + n)
  {
    AlignMonotone(a + n, b + n);
  }

  /** Whatever an entry holds, its sub-objects are aligned, apart, and inside its share. */
  lemma EntryIsSafe(z: StructSizes, d: Direct, isData: bool, sizes: seq<nat>)
    requires Covered(d, sizes)
    ensures LaidOut(Carved(z, d, isData, sizes), 0, PerEntry(z, d))
  {
    FixedLaidOut(z, isData);
    var at := FixedEnd(z, isData);
    if sizes == [] {
      PerEntryCoversFixed(z, d);
      LaidOutWithin(FixedRegions(z, isData), 0, at, PerEntry(z, d));
    } else {
      var start, end := SlotsStart(z, d, at), SlotsStart(z, d, at) + Times(|sizes|, d.maxSize);
      ArrayLaidOut(z, d, at, |sizes|);
      SlotsStartAligned(z, d, at);
      SlotsLaidOut(d.maxSize, start, sizes);
      LaidOutConcat(ArrayRegions(z, at, |sizes|), Slots(d.maxSize, start, sizes), at, start, end);
      LaidOutConcat(FixedRegions(z, isData), ArrayRegions(z, at, |sizes|) + Slots(d.maxSize, start, sizes), 0, at, end);
      SlotsStartMonotone(z, d, at, FixedPart(z));
      TimesMonotone(|sizes|, d.num, d.maxSize);
      LaidOutWithin(Carved(z, d, isData, sizes), 0, end, PerEntry(z, d));
    }
  }

  lemma PerEntryCoversFixed(z: StructSizes, d: Direct)
    ensures FixedPart(z) <= PerEntry(z, d)
  {
  }

  /** Shares are aligned too. */
  lemma PerEntryAligned(z: StructSizes, d: Direct)
    requires Aligned(d.maxSize)
    ensures Aligned(PerEntry(z, d))
  {
    TimesAligned(d.num, d.maxSize);
    FixedEndBound(z, true);
    SlotsStartAligned(z, d, FixedPart(z));
    AlignedSum(SlotsStart(z, d, FixedPart(z)), Times(d.num, d.maxSize));
  }

  // ------------------------------------------------------------ the whole block

  /** Regions moved to an entry's share of the block. */
  function Shifted(rs: seq<Region>, base: nat): seq<Region> {
    if rs == [] then [] else [Region(base + rs[0].at, rs[0].size)] + Shifted(rs[1..], base)
  }

  /** Their sizes stay, and each moves by the same. */
  lemma {:induction false} ShiftedAt(rs: seq<Region>, base: nat, i: nat)
    requires i < |rs|
    ensures |Shifted(rs, base)| == |rs| && Shifted(rs, base)[i] == Region(base + rs[i].at, rs[i].size)
    decreases |rs|
  {
    if |rs| > 1 { ShiftedAt(rs[1..], base, if i > 0 then i - 1 else 0); }
  }

  lemma {:induction false} ShiftedLaidOut(rs: seq<Region>, base: nat, lo: nat, hi: nat)
    requires LaidOut(rs, lo, hi) && Aligned(base)
    ensures LaidOut(Shifted(rs, base), base + lo, base + hi)
    decreases |rs|
  {
    if rs != [] {
      AlignedSum(base, rs[0].at);
      ShiftedLaidOut(rs[1..], base, rs[0].End(), hi);
    }
  }

  /** What an entry takes, for the arena: its kind and the sizes of its configurations. */
  datatype Shape = Shape(isData: bool, sizes: seq<nat>)

  /** Everything carved for the entries from number i on. */
  function AllCarved(z: StructSizes, d: Direct, i: nat, shapes: seq<Shape>): seq<Region>
    decreases |shapes|
  {
    if shapes == [] then []
    else
      Shifted(Carved(z, d, shapes[0].isData, shapes[0].sizes), Times(i, PerEntry(z, d)))
      + AllCarved(z, d, i + 1, shapes[1..])
  }

  ghost predicate AllCovered(d: Direct, shapes: seq<Shape>) {
    shapes == [] || (Covered(d, shapes[0].sizes) && AllCovered(d, shapes[1..]))
  }

  /**
   Fetch arena safety: all sub-objects of all entries together are aligned, pairwise apart, and
   inside the block that was allocated for them.
   */
  lemma {:induction false} ArenaIsSafe(z: StructSizes, d: Direct, i: nat, shapes: seq<Shape>)
    requires Aligned(d.maxSize) && AllCovered(d, shapes)
    ensures LaidOut(AllCarved(z, d, i, shapes), Times(i, PerEntry(z, d)), Times(i + |shapes|, PerEntry(z, d)))
    decreases |shapes|
  {
    if shapes != [] {
      var per, shape := PerEntry(z, d), shapes[0];
      ShareIsSafe(z, d, i, shape);
      ArenaIsSafe(z, d, i + 1, shapes[1..]);
      LaidOutConcat(Shifted(Carved(z, d, shape.isData, shape.sizes), Times(i, per)), AllCarved(z, d, i + 1, shapes[1..]),
                    Times(i, per), Times(i + 1, per), Times(i + |shapes|, per));
    }
  }

  lemma ShareIsSafe(z: StructSizes, d: Direct, i: nat, shape: Shape)
    requires Covered(d, shape.sizes)
    ensures var per := PerEntry(z, d);
      LaidOut(Shifted(Carved(z, d, shape.isData, shape.sizes), Times(i, per)), Times(i, per), Times(i + 1, per))
  {
    var per := PerEntry(z, d);
    EntryIsSafe(z, d, shape.isData, shape.sizes);
    PerEntryAligned(z, d);
    TimesAligned(i, per);
    ShiftedLaidOut(Carved(z, d, shape.isData, shape.sizes), Times(i, per), 0, per);
  }

  // -------------------------------------------------------------- too many

  function Full(n: nat, size: nat): (r: seq<nat>)
    ensures |r| == n
  {
    if n == 0 then [] else Full(n - 1, size) + [size]
  }

  lemma {:induction false} SlotsAppend(maxSize: nat, at: nat, sizes: seq<nat>, size: nat)
    ensures Slots(maxSize, at, sizes + [size]) == Slots(maxSize, at, sizes) + [Region(at + Times(|sizes|, maxSize), size)]
    decreases |sizes|
  {
    if sizes == [] {
      assert ([] + [size])[1..] == [] && ([] + [size])[0] == size;
    } else {
      assert (sizes + [size])[1..] == sizes[1..] + [size];
      SlotsAppend(maxSize, at + maxSize, sizes[1..], size);
    }
  }

  lemma LastRegionOutside(rs: seq<Region>, lo: nat, hi: nat)
    requires rs != [] && rs[|rs| - 1].End() > hi
    ensures !LaidOut(rs, lo, hi)
  {
    if LaidOut(rs, lo, hi) { LaidOutAt(rs, lo, hi, |rs| - 1); }
  }

  lemma {:induction false} FullAtMost(sizes: seq<nat>, size: nat, most: nat)
    requires AllAtMost(sizes, most) && size <= most
    ensures AllAtMost(sizes + [size], most)
    decreases |sizes|
  {
    if sizes == [] {
      assert (sizes + [size])[1..] == [];
    } else {
      assert (sizes + [size])[1..] == sizes[1..] + [size];
      FullAtMost(sizes[1..], size, most);
    }
  }

  lemma {:induction false} AllFull(n: nat, size: nat)
    ensures AllAtMost(Full(n, size), size)
  {
    if n > 0 {
      AllFull(n - 1, size);
      FullAtMost(Full(n - 1, size), size, size);
    }
  }

  lemma TooMany(z: StructSizes, d: Direct, n: nat)
    requires 0 < d.num < n && 0 < d.maxSize
    ensures !LaidOut(Carved(z, d, true, Full(n, d.maxSize)), 0, PerEntry(z, d))
  {
    var at := FixedEnd(z, true);
    SlotsAppend(d.maxSize, SlotsStart(z, d, at), Full(n - 1, d.maxSize), d.maxSize);
    TimesMonotone(d.num, n - 1, d.maxSize);
    LastRegionOutside(Carved(z, d, true, Full(n, d.maxSize)), 0, PerEntry(z, d));
  }

  /**
   The bound on the number of configurations is sharp: n of the greatest size fit what is carved
   for a DATA entry into its share exactly if the table has at least n direct resources.
   */
  lemma FullConfigsFitIff(z: StructSizes, d: Direct, n: nat)
    requires 0 < d.num && 0 < d.maxSize && Aligned(d.maxSize)
    ensures LaidOut(Carved(z, d, true, Full(n, d.maxSize)), 0, PerEntry(z, d)) <==> n <= d.num
  {
    if n <= d.num {
      AllFull(n, d.maxSize);
      EntryIsSafe(z, d, true, Full(n, d.maxSize));
    } else {
      TooMany(z, d, n);
    }
  }
}
