/** ALIGN_SIZE of src/pi_tables.c and src/pi_rpc_server.c, and regions of a memory block. */
module Arena {

  /** n times size bytes. */
  function Times(n: nat, size: nat): nat {
    if n == 0 then 0 else Times(n - 1, size) + size
  }

  lemma {:induction false} TimesIsProduct(n: nat, size: nat)
    ensures Times(n, size) == n * size
  {
    if n > 0 { TimesIsProduct(n - 1, size); }
  }

  lemma {:induction false} TimesSum(n: nat, m: nat, size: nat)
    ensures Times(n + m, size) == Times(n, size) + Times(m, size)
  {
    if m > 0 { TimesSum(n, m - 1, size); }
  }

  /** A multiple of 16. */
  ghost predicate Aligned(n: nat) {
    exists k: nat :: Times(k, 16) == n
  }

  lemma AlignedIff(n: nat)
    ensures Aligned(n) <==> n % 16 == 0
  {
    TimesIsProduct(n / 16, 16);
    if Aligned(n) {
      var k: nat :| Times(k, 16) == n;
      TimesIsProduct(k, 16);
    }
  }

  /** (s + 15) & ~15: clearing the low four bits. */
  function Align(s: nat): (r: nat)
    ensures s <= r < s + 16
  {
    (s + 15) / 16 * 16
  }

  lemma ZeroAligned()
    ensures Aligned(0)
  {
    assert Times(0, 16) == 0;
  }

  lemma AlignedSum(a: nat, b: nat)
    requires Aligned(a) && Aligned(b)
    ensures Aligned(a + b)
  {
    var j: nat :| Times(j, 16) == a;
    var k: nat :| Times(k, 16) == b;
    TimesSum(j, k, 16);
  }

  lemma AlignAligned(s: nat)
    ensures Aligned(Align(s))
  {
    AlignedIff(Align(s));
  }

  /** Rounding after adding to an aligned offset is adding what was rounded. */
  lemma AlignShift(a: nat, s: nat)
    requires Aligned(a)
    ensures Align(a + s) == a + Align(s)
  {
    AlignedIff(a);
  }

  lemma AlignMonotone(a: nat, b: nat)
    requires a <= b
    ensures Align(a) <= Align(b)
  {
  }

  /** A sub-object placed at an offset. */
  datatype Region = Region(at: nat, size: nat) {
    function End(): nat {
      at + size
    }
  }

  predicate Disjoint(a: Region, b: Region) {
    a.End() <= b.at || b.End() <= a.at
  }

  /** One after the other, each aligned, all between lo and hi. */
  ghost predicate LaidOut(rs: seq<Region>, lo: nat, hi: nat)
    decreases |rs|
  {
    if rs == [] then lo <= hi else lo <= rs[0].at && Aligned(rs[0].at) && LaidOut(rs[1..], rs[0].End(), hi)
  }

  /** What being laid out comes to, region by region. */
  lemma {:induction false} LaidOutAt(rs: seq<Region>, lo: nat, hi: nat, i: nat)
    requires LaidOut(rs, lo, hi) && i < |rs|
    ensures lo <= rs[i].at && rs[i].End() <= hi && rs[i].at % 16 == 0
    decreases i
  {
    if i == 0 {
      LaidOutBounds(rs[1..], rs[0].End(), hi);
      AlignedIff(rs[0].at);
    } else {
      LaidOutAt(rs[1..], rs[0].End(), hi, i - 1);
    }
  }

  lemma {:induction false} LaidOutBounds(rs: seq<Region>, lo: nat, hi: nat)
    requires LaidOut(rs, lo, hi)
    ensures lo <= hi
    decreases |rs|
  {
    if rs != [] { LaidOutBounds(rs[1..], rs[0].End(), hi); }
  }

  /** ... and pairwise. */
  lemma {:induction false} LaidOutApart(rs: seq<Region>, lo: nat, hi: nat, i: nat, j: nat)
    requires LaidOut(rs, lo, hi) && i < j < |rs|
    ensures Disjoint(rs[i], rs[j])
    decreases i
  {
    if i == 0 {
      LaidOutAt(rs[1..], rs[0].End(), hi, j - 1);
    } else {
      LaidOutApart(rs[1..], rs[0].End(), hi, i - 1, j - 1);
    }
  }

  lemma {:induction false} LaidOutConcat(a: seq<Region>, b: seq<Region>, lo: nat, mid: nat, hi: nat)
    requires LaidOut(a, lo, mid) && LaidOut(b, mid, hi)
    ensures LaidOut(a + b, lo, hi)
    decreases |a|
  {
    if a == [] {
      assert a + b == b;
      LaidOutLower(b, lo, mid, hi);
    } else {
      assert (a + b)[1..] == a[1..] + b;
      LaidOutConcat(a[1..], b, a[0].End(), mid, hi);
    }
  }

  lemma LaidOutCons(r: Region, rs: seq<Region>, lo: nat, next: nat, hi: nat)
    requires lo <= r.at && Aligned(r.at) && r.End() <= next && LaidOut(rs, next, hi)
    ensures LaidOut([r] + rs, lo, hi)
  {
    assert ([r] + rs)[1..] == rs;
    LaidOutLower(rs, r.End(), next, hi);
  }

  lemma LaidOutLower(rs: seq<Region>, lo: nat, mid: nat, hi: nat)
    requires LaidOut(rs, mid, hi) && lo <= mid
    ensures LaidOut(rs, lo, hi)
  {
  }

  lemma {:induction false} LaidOutWithin(rs: seq<Region>, lo: nat, hi: nat, top: nat)
    requires LaidOut(rs, lo, hi) && hi <= top
    ensures LaidOut(rs, lo, top)
    decreases |rs|
  {
    if rs != [] { LaidOutWithin(rs[1..], rs[0].End(), hi, top); }
  }

  // ------------------------------------------------------------ arrays of one size

  lemma {:induction false} TimesAligned(n: nat, size: nat)
    requires Aligned(size)
    ensures Aligned(Times(n, size))
  {
    ZeroAligned();
    if n > 0 {
      TimesAligned(n - 1, size);
      AlignedSum(Times(n - 1, size), size);
    }
  }

  lemma {:induction false} TimesMonotone(n: nat, m: nat, size: nat)
    requires n <= m
    ensures Times(n, size) <= Times(m, size)
  {
    if n < m { TimesMonotone(n, m - 1, size); }
  }
}
