/**
 The leaf codecs of src/utils/serialize.c: fixed-width integers copied byte for byte between a
 message and a variable. The bytes are those of the host, so the host's way of storing 32 and
 64-bit integers is a parameter; all that is asked of it is that reading undoes writing.
 */
module Wire {
  import opened Basics

  datatype HostFns = HostFns(
    enc32: u32 -> seq<byte>, dec32: seq<byte> -> u32,
    enc64: u64 -> seq<byte>, dec64: seq<byte> -> u64)
  {
    ghost predicate Law32(v: u32, rest: seq<byte>) {
      |enc32(v)| == 4 && dec32(enc32(v) + rest) == v
    }

    ghost predicate Law64(v: u64, rest: seq<byte>) {
      |enc64(v)| == 8 && dec64(enc64(v) + rest) == v
    }

    ghost predicate Lawful() {
      (forall v, rest :: Law32(v, rest)) && (forall v, rest :: Law64(v, rest))
    }
  }

  // -------------------------------------------------------- a host that qualifies

  function Low32(v: u32): (s: seq<byte>)
    ensures |s| == 4
  {
    var q, r := v / 0x100, v / 0x100 / 0x100;
    [v % 0x100, q % 0x100, r % 0x100, r / 0x100]
  }

  function FromLow32(s: seq<byte>): u32 {
    if |s| < 4 then 0
    else
      var a: int, b: int, c: int, d: int := s[0], s[1], s[2], s[3];
      a + 0x100 * (b + 0x100 * (c + 0x100 * d))
  }

  function Low64(v: u64): (s: seq<byte>)
    ensures |s| == 8
  {
    Low32(v % 0x1_0000_0000) + Low32(v / 0x1_0000_0000)
  }

  function FromLow64(s: seq<byte>): u64 {
    if |s| < 8 then 0 else FromLow32(s) + FromLow32(s[4..]) * 0x1_0000_0000
  }

  const LittleEndian := HostFns(Low32, FromLow32, Low64, FromLow64)

  lemma Low32Back(v: u32, rest: seq<byte>)
    ensures FromLow32(Low32(v) + rest) == v
  {
    var s := Low32(v) + rest;
    var q, r := v / 0x100, v / 0x100 / 0x100;
    assert s[0] == v % 0x100 && s[1] == q % 0x100 && s[2] == r % 0x100 && s[3] == r / 0x100;
  }

  lemma Low64Back(v: u64, rest: seq<byte>)
    ensures FromLow64(Low64(v) + rest) == v
  {
    var lo, hi := v % 0x1_0000_0000, v / 0x1_0000_0000;
    assert Low64(v) + rest == Low32(lo) + (Low32(hi) + rest);
    assert (Low64(v) + rest)[4..] == Low32(hi) + rest;
    Low32Back(lo, Low32(hi) + rest);
    Low32Back(hi, rest);
  }

  lemma LittleEndianIsLawful()
    ensures LittleEndian.Lawful()
  {
    forall v, rest ensures LittleEndian.Law32(v, rest) { Low32Back(v, rest); }
    forall v, rest ensures LittleEndian.Law64(v, rest) { Low64Back(v, rest); }
  }

  function LawfulHost(): (h: HostFns)
    ensures h.Lawful()
  {
    LittleEndianIsLawful();
    LittleEndian
  }

  // ----------------------------------------------------------------- any host

  type Host = h: HostFns | h.Lawful() ghost witness LawfulHost()

  function EncU32(h: Host, v: u32): (s: seq<byte>)
    ensures |s| == 4
  {
    assert h.Law32(v, []);
    h.enc32(v)
  }

  function DecU32(h: Host, s: seq<byte>): u32 {
    h.dec32(s)
  }

  function EncU64(h: Host, v: u64): (s: seq<byte>)
    ensures |s| == 8
  {
    assert h.Law64(v, []);
    h.enc64(v)
  }

  function DecU64(h: Host, s: seq<byte>): u64 {
    h.dec64(s)
  }

  /** Reading a 32-bit integer off the front of what was written. */
  lemma U32Back(h: Host, v: u32, rest: seq<byte>)
    ensures DecU32(h, EncU32(h, v) + rest) == v
    ensures (EncU32(h, v) + rest)[4..] == rest
  {
    assert h.Law32(v, rest);
  }

  lemma U64Back(h: Host, v: u64, rest: seq<byte>)
    ensures DecU64(h, EncU64(h, v) + rest) == v
    ensures (EncU64(h, v) + rest)[8..] == rest
  {
    assert h.Law64(v, rest);
  }

  /** What a reader gets: a value and how many bytes it took, or None off the end of the message. */
  type Read<T> = Option<(T, nat)>

  /** memcpy of an emitted value into a message buffer. */
  method Put(dst: array<byte>, off: nat, bytes: seq<byte>)
    requires off + |bytes| <= dst.Length
    modifies dst
    ensures dst[..off + |bytes|] == old(dst[..off]) + bytes
    ensures dst[off + |bytes|..] == old(dst[off + |bytes|..])
  {
    for i := 0 to |bytes|
      invariant dst[..off + i] == old(dst[..off]) + bytes[..i]
      invariant dst[off + i..] == old(dst[off + i..])
    {
      dst[off + i] := bytes[i];
      assert dst[..off + i + 1] == dst[..off + i] + [bytes[i]];
      assert dst[off + i + 1..] == old(dst[off + i..])[1..];
    }
    assert bytes[..|bytes|] == bytes;
  }

  /** Three values, one behind the other. */
  method PutThree(dst: array<byte>, off: nat, a: seq<byte>, b: seq<byte>, c: seq<byte>) returns (n: nat)
    requires off + |a + b + c| <= dst.Length
    modifies dst
    ensures n == |a + b + c|
    ensures dst[..off + n] == old(dst[..off]) + (a + b + c)
    ensures dst[off + n..] == old(dst[off + n..])
  {
    n := |a| + |b| + |c|;
    ghost var first, after := dst[..off], dst[off + n..];
    Put(dst, off, a);
    assert dst[off + n..] == after;
    Put(dst, off + |a|, b);
    assert dst[off + n..] == after;
    Put(dst, off + |a| + |b|, c);
    assert first + a + b + c == first + (a + b + c);
  }
}
