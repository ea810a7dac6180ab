/** Hexadecimal field values on the command line (CLI/utils.c): the parser and the printer. */
module HexParse {
  import opened Basics
  import opened BigEndian
  import opened Hex

  // ---------------------------------------------------------------- parsing

  /** The digits: an optional 0x is skipped. */
  function Unprefixed(param: string): string {
    if |param| >= 2 && param[0] == '0' && param[1] == 'x' then param[2..] else param
  }

  /** Bytes needed for that many digits. */
  function BytesFor(digits: nat): nat {
    (digits + 1) / 2
  }

  predicate Readable(param: string, width: nat) {
    IsHex(Unprefixed(param)) && BytesFor(|Unprefixed(param)|) <= width
  }

  /** The value, zero-extended to the width; None is the error return. */
  function Reading(param: string, width: nat): (r: Option<seq<byte>>) {
    if Readable(param, width) then Some(Bytes(width, Value(Unprefixed(param)))) else None
  }

  /** `at` bytes have been produced from `idx` digits, and the rest of the buffer is zero. */
  ghost predicate Produced(digits: string, idx: nat, buf: seq<byte>, at: nat) {
    idx <= |digits| && at <= |buf| && IsHex(digits[..idx]) && Number(buf[..at]) == Value(digits[..idx])
  }

  lemma OneDigit(digits: string, idx: nat)
    requires idx < |digits| && IsHex(digits[..idx]) && DigitValue(digits[idx]).Some?
    ensures IsHex(digits[..idx + 1]) && Value(digits[..idx + 1]) == 16 * Value(digits[..idx]) + DigitValue(digits[idx]).value
  {
    assert digits[..idx + 1][..idx] == digits[..idx];
  }

  lemma OneByte(buf: seq<byte>, at: nat, next: seq<byte>)
    requires at < |buf| == |next| && next == buf[at := next[at]]
    ensures Number(next[..at + 1]) == 256 * Number(buf[..at]) + next[at]
  {
    assert next[..at + 1][..at] == buf[..at];
  }

  lemma {:induction false} ZerosAreZero(s: seq<byte>)
    requires forall i :: 0 <= i < |s| ==> s[i] == 0
    ensures Number(s) == 0
    decreases |s|
  {
    if s != [] { ZerosAreZero(s[..|s| - 1]); }
  }

  /**
   hexstr_to_bytes: fails exactly on text that is not hexadecimal or does not fit, and else
   leaves the value in the buffer, big-endian and zero-extended.
   */
  method HexStrToBytes(param: string, bytes: array<byte>) returns (err: bool)
    modifies bytes
    ensures !err <==> Readable(param, bytes.Length)
    ensures !err ==> Number(bytes[..]) == Value(Unprefixed(param)) && Reading(param, bytes.Length) == Some(bytes[..])
  {
    var digits := Unprefixed(param);
    Clear(bytes);
    if (|digits| + 1) / 2 > bytes.Length {
      return true;
    }
    var at := bytes.Length - (|digits| + 1) / 2;
    var idx: nat := 0;
    ZerosAreZero(bytes[..at]);
    assert digits[..0] == [];
    if |digits| % 2 != 0 {
      var c := DigitValue(digits[0]);
      if c.None? {
        return true;
      }
      OneDigit(digits, 0);
      ghost var before := bytes[..];
      bytes[at] := c.value;
      OneByte(before, at, bytes[..]);
      idx, at := 1, at + 1;
    }
    err := ParsePairs(digits, idx, bytes, at);
    assert digits[..|digits|] == digits && bytes[..bytes.Length] == bytes[..];
    if !err {
      ReadingIs(param, bytes.Length, bytes[..]);
    }
  }

  /** memset. */
  method Clear(bytes: array<byte>)
    modifies bytes
    ensures forall i :: 0 <= i < bytes.Length ==> bytes[i] == 0
  {
    for i := 0 to bytes.Length
      invariant forall j :: 0 <= j < i ==> bytes[j] == 0
    {
      bytes[i] := 0;
    }
  }

  /** The loop over the remaining digits, two to a byte. */
  method ParsePairs(digits: string, start: nat, bytes: array<byte>, at0: nat) returns (err: bool)
    requires Produced(digits, start, bytes[..], at0) && |digits| - start == 2 * (bytes.Length - at0)
    modifies bytes
    ensures !err <==> IsHex(digits)
    ensures !err ==> Number(bytes[..bytes.Length]) == Value(digits[..|digits|])
  {
    var idx: nat, at: nat := start, at0;
    while idx < |digits|
      invariant Produced(digits, idx, bytes[..], at) && |digits| - idx == 2 * (bytes.Length - at)
    {
      var hi := DigitValue(digits[idx]);
      if hi.None? {
        return true;
      }
      var lo := DigitValue(digits[idx + 1]);
      if lo.None? {
        return true;
      }
      OneDigit(digits, idx);
      OneDigit(digits, idx + 1);
      ghost var before := bytes[..];
      bytes[at] := 16 * hi.value + lo.value;
      OneByte(before, at, bytes[..]);
      idx, at := idx + 2, at + 1;
    }
    assert digits[..idx] == digits;
    return false;
  }

  /** What a success means, without the loop. */
  lemma ReadingIs(param: string, width: nat, buf: seq<byte>)
    requires Readable(param, width) && |buf| == width && Number(buf) == Value(Unprefixed(param))
    ensures Reading(param, width) == Some(buf)
  {
    BytesOfNumber(buf);
  }

  lemma {:induction false} DigitsFit(digits: nat, width: nat)
    requires BytesFor(digits) <= width
    ensures Pow16(digits) <= Pow256(width)
    decreases width
  {
    if digits >= 2 {
      DigitsFit(digits - 2, width - 1);
      assert Pow16(digits) == 16 * Pow16(digits - 1) && Pow16(digits - 1) == 16 * Pow16(digits - 2);
    } else if digits == 1 {
      assert Pow256(width) == 256 * Pow256(width - 1) && Pow16(1) == 16 * Pow16(0);
    }
  }

  /** A reading has the value of the text: no digit is lost to the width. */
  lemma ReadingHasValue(param: string, width: nat)
    requires Readable(param, width)
    ensures Number(Reading(param, width).value) == Value(Unprefixed(param))
  {
    var digits := Unprefixed(param);
    ValueBound(digits);
    DigitsFit(|digits|, width);
    NumberOfBytes(width, Value(digits));
  }

  /** Text is accepted exactly if it is digits, or 0x and digits, and at most two for each byte. */
  lemma AcceptedIff(param: string, width: nat)
    ensures Reading(param, width).Some? <==>
            exists digits :: IsHex(digits) && |digits| <= 2 * width && (param == digits || param == "0x" + digits)
  {
    if Readable(param, width) {
      var digits := Unprefixed(param);
      if digits != param { assert param == "0x" + digits; }
    }
    forall digits | IsHex(digits) && |digits| <= 2 * width && (param == digits || param == "0x" + digits)
      ensures Readable(param, width)
    {
      if param == digits {
        HexIsUnprefixed(digits);
      } else {
        assert ("0x" + digits)[2..] == digits;
      }
    }
  }

  // --------------------------------------------------------------- printing

  /** "%02x" for each byte. */
  function Printed(bytes: seq<byte>): (s: string)
    ensures |s| == 2 * |bytes|
  {
    if bytes == [] then [] else
      var b: nat := bytes[|bytes| - 1];
      Printed(bytes[..|bytes| - 1]) + [DigitChar(b / 16), DigitChar(b % 16)]
  }

  method PrintHexStr(bytes: seq<byte>) returns (out: string)
    ensures out == Printed(bytes)
  {
    out := "";
    for i := 0 to |bytes|
      invariant out == Printed(bytes[..i])
    {
      var b: nat := bytes[i];
      out := out + [DigitChar(b / 16), DigitChar(b % 16)];
      assert bytes[..i + 1][..i] == bytes[..i];
    }
    assert bytes[..|bytes|] == bytes;
  }

  /** What is printed are hexadecimal digits, and their value is the buffer's. */
  lemma {:induction false} PrintedValue(bytes: seq<byte>)
    ensures IsHex(Printed(bytes)) && Value(Printed(bytes)) == Number(bytes)
    decreases |bytes|
  {
    if bytes != [] {
      var init := bytes[..|bytes| - 1];
      var b: nat := bytes[|bytes| - 1];
      PrintedValue(init);
      TwoDigits(Printed(init), b);
    }
  }

  /** Each byte as two lower-case digits. */
  lemma {:induction false} PrintedAt(bytes: seq<byte>, i: nat)
    requires i < |bytes|
    ensures Printed(bytes)[2 * i] == "0123456789abcdef"[bytes[i] / 16] && Printed(bytes)[2 * i + 1] == "0123456789abcdef"[bytes[i] % 16]
    decreases |bytes|
  {
    if i < |bytes| - 1 { PrintedAt(bytes[..|bytes| - 1], i); }
  }

  lemma TwoDigits(s: string, b: nat)
    requires IsHex(s) && b < 256
    ensures var t := s + [DigitChar(b / 16), DigitChar(b % 16)]; IsHex(t) && Value(t) == 256 * Value(s) + b
  {
    var t := s + [DigitChar(b / 16), DigitChar(b % 16)];
    assert t[..|s|] == s;
    OneDigit(t, |s|);
    OneDigit(t, |s| + 1);
    assert t[..|s| + 2] == t;
  }

  /** Digits never look like a prefix. */
  lemma HexIsUnprefixed(s: string)
    requires IsHex(s)
    ensures Unprefixed(s) == s
  {
    if |s| >= 2 { assert DigitValue(s[1]).Some?; }
  }

  /** Parsing the printed form of a buffer at its own width gives the buffer back. */
  lemma RoundTrip(bytes: seq<byte>)
    ensures Reading(Printed(bytes), |bytes|) == Some(bytes)
  {
    PrintedValue(bytes);
    HexIsUnprefixed(Printed(bytes));
    ReadingIs(Printed(bytes), |bytes|, bytes);
  }

  /** So does the form with the prefix, and the same at any greater width, with zeros in front. */
  lemma RoundTripPrefixed(bytes: seq<byte>, width: nat)
    requires |bytes| <= width
    ensures Reading("0x" + Printed(bytes), width) == Some(seq(width - |bytes|, _ => 0) + bytes)
  {
    PrintedValue(bytes);
    var pad: seq<byte> := seq(width - |bytes|, _ => 0);
    assert ("0x" + Printed(bytes))[2..] == Printed(bytes);
    PaddedNumber(width - |bytes|, bytes);
    ReadingIs("0x" + Printed(bytes), width, pad + bytes);
  }

  lemma {:induction false} PaddedNumber(k: nat, s: seq<byte>)
    ensures Number(seq<byte>(k, _ => 0) + s) == Number(s)
    decreases |s|
  {
    var pad := seq<byte>(k, _ => 0);
    if s == [] {
      assert pad + s == pad;
      ZerosAreZero(pad);
    } else {
      PaddedNumber(k, s[..|s| - 1]);
      assert (pad + s)[..|pad + s| - 1] == pad + s[..|s| - 1];
    }
  }
}
