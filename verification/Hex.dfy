/** Hexadecimal digits and numbers, shared by the 128-bit printer and the CLI field parser. */
module Hex {
  import opened Basics

  /** 16 to the k. */
  function Pow16(k: nat): (r: nat)
    ensures r >= 1
  {
    if k == 0 then 1 else 16 * Pow16(k - 1)
  }

  /** The digit printed for d by "%x". */
  function DigitChar(d: nat): (c: char)
    requires d < 16
    ensures DigitValue(c) == Some(d)
  {
    "0123456789abcdef"[d]
  }

  /** char2digit: both letter cases are digits, anything else is an error. */
  function DigitValue(c: char): (r: Option<nat>)
    ensures r.Some? ==> r.value < 16
  {
    if '0' <= c <= '9' then Some(c as nat - '0' as nat)
    else if 'A' <= c <= 'F' then Some(c as nat - 'A' as nat + 10)
    else if 'a' <= c <= 'f' then Some(c as nat - 'a' as nat + 10)
    else None
  }

  /** A character has a value exactly if it is that digit, in one of the two cases. */
  lemma DigitMeans(c: char, v: nat)
    ensures DigitValue(c) == Some(v) <==> v < 16 && (c == "0123456789abcdef"[v] || c == "0123456789ABCDEF"[v])
  {
  }

  predicate IsHex(s: string) {
    forall i :: 0 <= i < |s| ==> DigitValue(s[i]).Some?
  }

  /** The number a string of hexadecimal digits denotes, most significant digit first. */
  function Value(s: string): nat
    requires IsHex(s)
  {
    if s == [] then 0
    else Value(s[..|s| - 1]) * 16 + DigitValue(s[|s| - 1]).value
  }

  /** The shortest numeral of n, as an unsigned integer is printed under std::hex. */
  function Digits(n: nat): (s: string)
    ensures s != [] && IsHex(s) && Value(s) == n
  {
    if n < 16 then
      var s := [DigitChar(n)];
      assert s[..|s| - 1] == [];
      s
    else
      var s := Digits(n / 16) + [DigitChar(n % 16)];
      assert s[..|s| - 1] == Digits(n / 16);
      s
  }

  /** The numeral has lower-case digits, and none too many. */
  lemma {:induction false} DigitsAreShortest(n: nat)
    ensures forall i :: 0 <= i < |Digits(n)| ==> Digits(n)[i] in "0123456789abcdef"
    ensures n > 0 ==> Digits(n)[0] != '0'
  {
    if n >= 16 { DigitsAreShortest(n / 16); }
  }

  lemma {:induction false} DigitsLength(n: nat, k: nat)
    requires 1 <= k && n < Pow16(k)
    ensures |Digits(n)| <= k
  {
    if n >= 16 {
      assert n / 16 < Pow16(k - 1);
      DigitsLength(n / 16, k - 1);
    }
  }

  lemma {:induction false} ValueOfConcat(a: string, b: string)
    requires IsHex(a) && IsHex(b)
    ensures IsHex(a + b)
    ensures Value(a + b) == Value(a) * Pow16(|b|) + Value(b)
  {
    if b == [] {
      assert a + b == a;
    } else {
      var init, last := b[..|b| - 1], DigitValue(b[|b| - 1]).value;
      ValueOfConcat(a, init);
      assert (a + b)[..|a + b| - 1] == a + init;
      calc {
        Value(a + b);
        Value(a + init) * 16 + last;
        (Value(a) * Pow16(|init|) + Value(init)) * 16 + last;
        { Distribute(Value(a), Pow16(|init|), Value(init), last); }
        Value(a) * Pow16(|b|) + Value(b);
      }
    }
  }

  lemma Distribute(v: nat, p: nat, w: nat, d: nat)
    ensures (v * p + w) * 16 + d == v * (16 * p) + (w * 16 + d)
  {
  }

  function Repeat(c: char, k: nat): (s: string)
    ensures |s| == k && forall i :: 0 <= i < k ==> s[i] == c
  {
    seq(k, _ => c)
  }

  lemma {:induction false} ZerosHaveNoValue(k: nat)
    ensures IsHex(Repeat('0', k)) && Value(Repeat('0', k)) == 0
  {
    if k > 0 {
      ZerosHaveNoValue(k - 1);
      assert Repeat('0', k)[..k - 1] == Repeat('0', k - 1);
    }
  }

  lemma LeadingZeros(k: nat, s: string)
    requires IsHex(s)
    ensures IsHex(Repeat('0', k) + s) && Value(Repeat('0', k) + s) == Value(s)
  {
    ZerosHaveNoValue(k);
    ValueOfConcat(Repeat('0', k), s);
  }

  /** n with k more digits 0. */
  function Scaled(n: nat, k: nat): nat {
    if k == 0 then n else 16 * Scaled(n, k - 1)
  }

  lemma {:induction false} TrailingZeros(s: string, k: nat)
    requires IsHex(s)
    ensures IsHex(s + Repeat('0', k)) && Value(s + Repeat('0', k)) == Scaled(Value(s), k)
  {
    var t := s + Repeat('0', k);
    if k == 0 {
      assert t == s;
    } else {
      TrailingZeros(s, k - 1);
      assert t[..|t| - 1] == s + Repeat('0', k - 1);
    }
  }

  lemma {:induction false} ScaledIff(n: nat, k: nat)
    ensures Scaled(n, k) >= n
    ensures Scaled(n, k) == n <==> k == 0 || n == 0
  {
    if k > 0 { ScaledIff(n, k - 1); }
  }

  lemma {:induction false} ValueBound(s: string)
    requires IsHex(s)
    ensures Value(s) < Pow16(|s|)
  {
    if s != [] {
      ValueBound(s[..|s| - 1]);
    }
  }
}
