/**
 Field values in network order (src/pi_value.c): four constructors, one for each integer width,
 that keep just the bytes a field of the given bitwidth needs and mask the extra bits of the first.
 */
module NetValue {
  import opened Basics
  import opened BigEndian
  import opened ActionLayout

  // ---------------------------------------------------------------- masking

  /** Bitwise and. */
  function And(a: nat, b: nat): (r: nat)
    ensures r <= a
  {
    if a == 0 then 0 else 2 * And(a / 2, b / 2) + (if a % 2 == 1 && b % 2 == 1 then 1 else 0)
  }

  /** A mask of k ones keeps the remainder by 2^k. */
  lemma {:induction false} AndOnes(a: nat, k: nat)
    ensures And(a, Pow2(k) - 1) == a % Pow2(k)
    decreases k
  {
    if k == 0 {
      AndZero(a);
    } else {
      AndOnes(a / 2, k - 1);
      AndHalves(a, Pow2(k - 1));
      HalfStep(a, Pow2(k - 1));
    }
  }

  lemma AndHalves(a: nat, m: nat)
    requires m > 0
    ensures And(a, 2 * m - 1) == 2 * And(a / 2, m - 1) + a % 2
  {
    assert (2 * m - 1) / 2 == m - 1 && (2 * m - 1) % 2 == 1;
  }

  lemma {:induction false} AndZero(a: nat)
    ensures And(a, 0) == 0
  {
    if a > 0 { AndZero(a / 2); }
  }

  lemma HalfStep(a: nat, m: nat)
    requires m > 0
    ensures a % (2 * m) == 2 * ((a / 2) % m) + a % 2
  {
    TopReduced(a, a / 2, 2, a % 2, m);
  }

  lemma SmallSum(r: nat, low: nat, m: nat, k: nat)
    requires low < m && r < k
    ensures m * k > 0 && r * m + low < m * k
  {
    assert (r + 1) * m <= k * m by { MulMonotone(r + 1, k, m); }
    assert (r + 1) * m == r * m + m;
  }

  lemma {:induction false} MulMonotone(a: nat, b: nat, m: nat)
    requires a <= b
    ensures a * m <= b * m
    decreases b - a
  {
    if a < b { MulMonotone(a, b - 1, m); }
  }

  lemma {:induction false} Pow2OfBytes(n: nat, k: nat)
    ensures Pow2(8 * n + k) == Pow256(n) * Pow2(k)
    decreases n
  {
    if n > 0 {
      Pow2OfBytes(n - 1, k);
      EightMore(8 * (n - 1) + k);
    }
  }

  lemma EightMore(n: nat)
    ensures Pow2(n + 8) == 256 * Pow2(n)
  {
    assert Pow2(n + 8) == 2 * Pow2(n + 7) && Pow2(n + 7) == 2 * Pow2(n + 6) && Pow2(n + 6) == 2 * Pow2(n + 5)
        && Pow2(n + 5) == 2 * Pow2(n + 4) && Pow2(n + 4) == 2 * Pow2(n + 3) && Pow2(n + 3) == 2 * Pow2(n + 2)
        && Pow2(n + 2) == 2 * Pow2(n + 1) && Pow2(n + 1) == 2 * Pow2(n);
  }

  // ------------------------------------------------------------ byte strings

  /** data[0] &= mask. */
  function Masked(s: seq<byte>, mask: nat): (r: seq<byte>)
    requires s != []
    ensures |r| == |s|
  {
    [And(s[0], mask)] + s[1..]
  }

  /** What is left of v without its n low bytes. */
  function High(v: nat, n: nat): nat
    decreases n
  {
    if n == 0 then v else High(v / 256, n - 1)
  }

  /** The bytes of v split after the first of the last n. */
  lemma {:induction false} FirstByte(n: nat, v: nat)
    requires n > 0
    ensures Bytes(n, v) == [High(v, n - 1) % 256] + Bytes(n - 1, v)
    decreases n
  {
    if n > 1 {
      FirstByte(n - 1, v / 256);
      assert Bytes(n, v) == ([High(v, n - 1) % 256] + Bytes(n - 2, v / 256)) + [v % 256];
    }
  }

  lemma {:induction false} HighSplit(n: nat, v: nat)
    ensures v == High(v, n) * Pow256(n) + Number(Bytes(n, v)) && Number(Bytes(n, v)) < Pow256(n)
    decreases n
  {
    if n > 0 {
      HighSplit(n - 1, v / 256);
      assert Bytes(n, v)[..n - 1] == Bytes(n - 1, v / 256);
      ShiftByte(v, High(v, n), Pow256(n - 1), Number(Bytes(n - 1, v / 256)));
    }
  }

  lemma ShiftByte(v: nat, high: nat, m: nat, w: nat)
    requires v / 256 == high * m + w && w < m
    ensures v == high * (256 * m) + (256 * w + v % 256) && 256 * w + v % 256 < 256 * m
  {
    assert v == 256 * (v / 256) + v % 256;
    assert 256 * (high * m) == high * (256 * m);
  }

  /** Leading bytes are dropped by taking fewer. */
  lemma {:induction false} LastBytes(total: nat, n: nat, v: nat)
    requires n <= total
    ensures Bytes(total, v)[total - n..] == Bytes(n, v)
    decreases total - n
  {
    if n < total {
      LastBytes(total, n + 1, v);
      FirstByte(n + 1, v);
      assert Bytes(total, v)[total - n..] == Bytes(total, v)[total - n - 1..][1..];
    }
  }

  lemma {:induction false} NumberCons(x: byte, s: seq<byte>)
    ensures Number([x] + s) == x * Pow256(|s|) + Number(s)
    decreases |s|
  {
    if s == [] {
      assert ([x] + s)[..0] == [];
    } else {
      var front, last := s[..|s| - 1], s[|s| - 1];
      NumberCons(x, front);
      assert ([x] + s)[..|s|] == [x] + front;
      assert 256 * (x * Pow256(|front|)) == x * Pow256(|s|);
    }
  }

  /** The n low bytes with the first masked to k bits are the remainder by 2^(8(n-1)+k). */
  lemma MaskedNumber(n: nat, k: nat, v: nat)
    requires n > 0 && k <= 8
    ensures Number(Masked(Bytes(n, v), Pow2(k) - 1)) == v % Pow2(8 * (n - 1) + k)
  {
    var m, high, w := Pow256(n - 1), High(v, n - 1), Number(Bytes(n - 1, v));
    var x := MaskedFirst(n, k, v);
    NumberCons(x, Bytes(n - 1, v));
    HighSplit(n - 1, v);
    Pow2OfBytes(n - 1, k);
    TopReduced(v, high, m, w, Pow2(k));
  }

  /** Reducing the part above m by k is reducing the whole by m * k. */
  lemma TopReduced(v: nat, high: nat, m: nat, w: nat, k: nat)
    requires v == high * m + w && w < m && k > 0
    ensures m * k > 0 && v % (m * k) == (high % k) * m + w
  {
    var q, x := high / k, high % k;
    assert high == q * k + x;
    assert (q * k + x) * m == q * (m * k) + x * m;
    SmallSum(x, w, m, k);
    Remainder(v, m * k, q, x * m + w);
  }

  lemma MaskedFirst(n: nat, k: nat, v: nat) returns (x: byte)
    requires n > 0 && k <= 8
    ensures x == High(v, n - 1) % Pow2(k) && Masked(Bytes(n, v), Pow2(k) - 1) == [x] + Bytes(n - 1, v)
  {
    FirstByte(n, v);
    x := MaskedByte(High(v, n - 1), k);
    assert Bytes(n, v)[1..] == Bytes(n - 1, v);
  }

  lemma MaskedByte(high: nat, k: nat) returns (x: byte)
    requires k <= 8
    ensures x == And(high % 256, Pow2(k) - 1) && x == high % Pow2(k)
  {
    x := And(high % 256, Pow2(k) - 1);
    AndOnes(high % 256, k);
    Pow2Of8();
    ModMod(high, 8, k);
  }

  /** Cutting to more bits first does not change what fewer bits keep. */
  lemma {:induction false} ModMod(a: nat, n: nat, k: nat)
    requires k <= n
    ensures (a % Pow2(n)) % Pow2(k) == a % Pow2(k)
    decreases k
  {
    if k > 0 {
      var b := a % Pow2(n);
      HalfStep(a, Pow2(n - 1));
      assert b / 2 == (a / 2) % Pow2(n - 1) && b % 2 == a % 2;
      ModMod(a / 2, n - 1, k - 1);
      HalfStep(b, Pow2(k - 1));
      HalfStep(a, Pow2(k - 1));
    }
  }

  // ------------------------------------------------------------ constructors

  datatype Netv = Value(data: seq<byte>) | InvalidSize

  /** pi_getnetv_u8 and its three siblings, by the width of their argument in bytes. */
  datatype Constructor = U8 | U16 | U32 | U64

  function Bytewidth(c: Constructor): nat {
    match c
    case U8 => 1
    case U16 => 2
    case U32 => 4
    case U64 => 8
  }

  predicate Accepts(c: Constructor, bitwidth: nat) {
    match c
    case U8 => bitwidth <= 8
    case U16 => 8 < bitwidth <= 16
    case U32 => 16 < bitwidth <= 32
    case U64 => 32 < bitwidth <= 64
  }

  /** The constructor for a bitwidth, and no other. */
  lemma ExactlyOneAccepts(bitwidth: nat)
    requires 1 <= bitwidth <= 64
    ensures exists c :: Accepts(c, bitwidth) && forall d :: Accepts(d, bitwidth) ==> d == c
  {
    var c := if bitwidth <= 8 then U8 else if bitwidth <= 16 then U16 else if bitwidth <= 32 then U32 else U64;
    assert Accepts(c, bitwidth) && forall d :: Accepts(d, bitwidth) ==> d == c;
  }

  /** That is, a bitwidth that fits its argument and no narrower one. */
  lemma AcceptsIffSmallest(c: Constructor, bitwidth: nat)
    ensures Accepts(c, bitwidth) <==>
            bitwidth <= 8 * Bytewidth(c) && forall d :: Bytewidth(d) < Bytewidth(c) ==> bitwidth > 8 * Bytewidth(d)
  {
    assert Bytewidth(U8) == 1 && Bytewidth(U16) == 2 && Bytewidth(U32) == 4 && Bytewidth(U64) == 8;
  }

  /** The bits of a field that sit in its first byte. */
  function FirstBits(bitwidth: nat): nat
    requires bitwidth > 0
  {
    bitwidth - 8 * (Width(bitwidth) - 1)
  }

  lemma MaskIsOnes(bitwidth: nat)
    requires bitwidth > 0
    ensures Width(bitwidth) > 0 && 0 < FirstBits(bitwidth) <= 8 && Byte0Mask(bitwidth) == Pow2(FirstBits(bitwidth)) - 1
  {
    var q, r := bitwidth / 8, bitwidth % 8;
    WidthOf(q, r);
    if r == 0 { Pow2Of8(); }
  }

  lemma WidthOf(q: nat, r: nat)
    requires r < 8
    ensures (8 * q + r + 7) / 8 == if r == 0 then q else q + 1
  {
  }

  lemma Pow2Of8()
    ensures Pow2(8) == 256
  {
    EightMore(0);
    assert Pow2(0) == 1;
  }

  /** Keeping the bytes a field needs and masking the first is reducing modulo 2^bitwidth. */
  lemma TruncationIsModular(bitwidth: nat, v: nat)
    requires bitwidth > 0
    ensures Number(Masked(Bytes(Width(bitwidth), v), Byte0Mask(bitwidth))) == v % Pow2(bitwidth)
  {
    MaskIsOnes(bitwidth);
    var n, k := Width(bitwidth), FirstBits(bitwidth);
    MaskedNumber(n, k, v);
    assert 8 * (n - 1) + k == bitwidth;
  }

  /**
   The constructors, for the first parameter of an action with the id; it is for the caller to
   name one that is there. Bitwidth and mask come from the record found. What is stored reads as
   the value modulo 2^bitwidth; a value that fits is stored as it is.
   */
  method GetNetv(a: Action, id: u32, c: Constructor, v: nat, ghost ps: seq<Spec>, ghost i: nat) returns (r: Netv)
    requires a.Holding(ps) && FirstWithId(ps, i) && ps[i].id == id && v < Pow256(Bytewidth(c))
    ensures var bitwidth := ps[i].bitwidth;
      && (r.InvalidSize? <==> !Accepts(c, bitwidth))
      && (r.Value? && bitwidth > 0 ==> |r.data| == Width(bitwidth) && Number(r.data) == v % Pow2(bitwidth))
      && (r.Value? && bitwidth == 0 ==> r.data == [v])
  {
    LookupFinds(ps, a.numParams, i);
    var param := a.ParamDataAt(id, ps);
    var bitwidth, byte0Mask := param.value.bitwidth, param.value.byte0Mask;
    if bitwidth > 0 {
      TruncationIsModular(bitwidth, v);
    }
    r := Construct(c, bitwidth, byte0Mask, v);
    if bitwidth == 0 && c.U8? {
      WholeByte(v);
    }
  }

  /** The part of the constructors behind the lookup. */
  method Construct(c: Constructor, bitwidth: nat, byte0Mask: byte, v: nat) returns (r: Netv)
    requires v < Pow256(Bytewidth(c))
    ensures r == if Accepts(c, bitwidth) then Value(Masked(Bytes(if c.U8? then 1 else Width(bitwidth), v), byte0Mask)) else InvalidSize
  {
    match c {
      case U8 =>
        if bitwidth > 8 { return InvalidSize; }
        r := StoreMasked(1, v, 1, byte0Mask);
      case U16 =>
        if bitwidth <= 8 || bitwidth > 16 { return InvalidSize; }
        r := StoreMasked(2, v, 2, byte0Mask);
      case U32 =>
        if bitwidth <= 16 || bitwidth > 32 { return InvalidSize; }
        r := StoreMasked(4, v, (bitwidth + 7) / 8, byte0Mask);
      case U64 =>
        if bitwidth <= 32 || bitwidth > 64 { return InvalidSize; }
        r := StoreMasked(8, v, (bitwidth + 7) / 8, byte0Mask);
    }
  }

  /** The mask of the record a parameter is found with cuts any value to the parameter's bits. */
  lemma FoundMaskTruncates(ps: seq<Spec>, n: nat, i: nat, v: nat)
    requires |ps| <= n && FirstWithId(ps, i) && ps[i].bitwidth > 0
    ensures var r := ById(Slots(ps, n), ps[i].id);
      && r.Some? && Describes(r.value, ps[i], Size(ps[..i]))
      && Number(Masked(Bytes(Width(r.value.bitwidth), v), r.value.byte0Mask)) == v % Pow2(ps[i].bitwidth)
  {
    LookupFinds(ps, n, i);
    TruncationIsModular(ps[i].bitwidth, v);
  }

  /** Swap to network order, skip the bytes not needed, mask the first, copy out. */
  method StoreMasked(total: nat, v: nat, size: nat, byte0Mask: byte) returns (r: Netv)
    requires 0 < size <= total && v < Pow256(total)
    ensures r == Value(Masked(Bytes(size, v), byte0Mask))
  {
    var swapped := Bytes(total, v);
    var data := new byte[total](i requires 0 <= i < total => swapped[i]);
    assert data[..] == swapped;
    var at := total - size;
    data[at] := And(data[at], byte0Mask);
    LastBytes(total, size, v);
    assert data[at..] == Masked(swapped[at..], byte0Mask);
    r := Value(data[at..]);
  }

  /** A bitwidth of 0 is not rejected: its mask keeps the whole byte. */
  lemma WholeByte(v: nat)
    requires v < Pow256(1)
    ensures Masked(Bytes(1, v), Byte0Mask(0)) == [v]
  {
    OneByte(v);
    Pow2Of8();
    AndAllOnes(v, Byte0Mask(0), 8);
  }

  lemma AndAllOnes(v: nat, mask: nat, k: nat)
    requires v < Pow2(k) && mask == Pow2(k) - 1
    ensures And(v, mask) == v
  {
    AndOnes(v, k);
  }

  lemma OneByte(v: nat)
    requires v < Pow256(1)
    ensures v < 256 && Bytes(1, v) == [v]
  {
    assert Pow256(1) == 256 * Pow256(0);
    assert Bytes(1, v) == Bytes(0, v / 256) + [v % 256];
  }

  /** So modulo 2^bitwidth holds of everything accepted but a nonzero value of bitwidth 0. */
  lemma ModularIff(c: Constructor, bitwidth: nat, v: nat)
    requires Accepts(c, bitwidth) && v < Pow256(Bytewidth(c))
    ensures var n := if bitwidth == 0 then 1 else Width(bitwidth);
      Number(Masked(Bytes(n, v), Byte0Mask(bitwidth))) == v % Pow2(bitwidth) <==> bitwidth > 0 || v == 0
  {
    if bitwidth > 0 {
      TruncationIsModular(bitwidth, v);
    } else {
      WholeByte(v);
      NumberCons(v, []);
    }
  }
}
