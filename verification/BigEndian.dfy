/** Numbers in network byte order. */
module BigEndian {
  import opened Basics

  function Pow256(n: nat): (r: nat)
    ensures r > 0
  {
    if n == 0 then 1 else 256 * Pow256(n - 1)
  }

  /** The n low bytes of v, most significant first. */
  function Bytes(n: nat, v: nat): (s: seq<byte>)
    ensures |s| == n
  {
    if n == 0 then [] else Bytes(n - 1, v / 256) + [v % 256]
  }

  function Number(s: seq<byte>): nat {
    if s == [] then 0 else 256 * Number(s[..|s| - 1]) + s[|s| - 1]
  }

  /** The i-th of n bytes counts 256 to the n - 1 - i. */
  lemma {:induction false} MostSignificantFirst(n: nat, v: nat, i: nat)
    requires i < n
    ensures Bytes(n, v)[i] == v / Pow256(n - 1 - i) % 256
  {
    if i < n - 1 {
      MostSignificantFirst(n - 1, v / 256, i);
      TwoQuotients(v, Pow256(n - 2 - i));
    }
  }

  lemma TwoQuotients(v: nat, m: nat)
    requires m > 0
    ensures v / 256 / m == v / (256 * m)
  {
    var a, r := v / 256, v % 256;
    var q, t := a / m, a % m;
    assert v == q * (256 * m) + (256 * t + r) by {
      assert a == q * m + t;
      assert 256 * (q * m) == q * (256 * m);
    }
    assert 256 * t + r < 256 * m;
    Quotient(v, 256 * m, q, 256 * t + r);
  }

  lemma Quotient(v: nat, m: nat, q: nat, r: nat)
    requires m > 0 && v == q * m + r && r < m
    ensures v / m == q
  {
    Remainder(v, m, q, r);
    assert v == (v / m) * m + v % m;
    if v / m != q { NonzeroMultiple(v / m - q, m); }
  }

  lemma {:induction false} NumberOfBytes(n: nat, v: nat)
    requires v < Pow256(n)
    ensures Number(Bytes(n, v)) == v
  {
    if n > 0 {
      NumberOfBytes(n - 1, v / 256);
      assert Bytes(n, v)[..n - 1] == Bytes(n - 1, v / 256);
    }
  }

  lemma {:induction false} BytesOfNumber(s: seq<byte>)
    ensures Bytes(|s|, Number(s)) == s && Number(s) < Pow256(|s|)
    decreases |s|
  {
    if s != [] {
      var front, last := s[..|s| - 1], s[|s| - 1];
      BytesOfNumber(front);
      SplitLast(Number(front), last, Pow256(|front|));
      assert s == front + [last];
    }
  }

  lemma SplitLast(a: nat, last: byte, m: nat)
    requires a < m
    ensures (256 * a + last) / 256 == a && (256 * a + last) % 256 == last && 256 * a + last < 256 * m
  {
  }

  lemma Remainder(v: nat, m: nat, q: nat, r: nat)
    requires v == q * m + r && r < m
    ensures v % m == r
  {
    var k := v / m - q;
    assert v == (v / m) * m + v % m;
    assert k * m == r - v % m;
    if k != 0 { NonzeroMultiple(k, m); }
  }

  lemma {:induction false} NonzeroMultiple(k: int, m: int)
    requires k != 0 && m >= 0
    ensures k * m >= m || k * m <= -m
    decreases if k > 0 then k else -k
  {
    if k > 1 {
      NonzeroMultiple(k - 1, m);
    } else if k < -1 {
      NonzeroMultiple(k + 1, m);
    }
  }
}
