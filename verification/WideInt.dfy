/**
 128-bit unsigned integers held as two 64-bit words, as in proto/server/uint128.h,
 and their hexadecimal printing, as in proto/server/uint128.cpp.
 */
module WideInt {
  import opened Basics
  import Hex

  const WORD: int := 0x1_0000_0000_0000_0000
  const WRAP: int := 0x1_0000_0000_0000_0000_0000_0000_0000_0000

  /** Wrap-around of the source's uint64_t arithmetic. */
  function Wrap64(x: int): (r: u64) {
    x % WORD
  }

  /** The value of a Uint128 object; the comparisons work word by word. */
  datatype U128 = U128(high: u64, low: u64) {

    function Value(): (v: nat)
      ensures v < WRAP
    {
      high * WORD + low
    }

    predicate Less(b: U128) {
      high < b.high || (high == b.high && low < b.low)
    }

    predicate AtMost(b: U128) {
      high < b.high || (high == b.high && low <= b.low)
    }

    predicate Greater(b: U128) {
      !AtMost(b)
    }

    predicate AtLeast(b: U128) {
      !Less(b)
    }
  }

  /** The word-by-word comparisons are the order of the numbers. */
  lemma ComparisonsAreNumeric(a: U128, b: U128)
    ensures a.Less(b) <==> a.Value() < b.Value()
    ensures a.AtMost(b) <==> a.Value() <= b.Value()
    ensures a.Greater(b) <==> a.Value() > b.Value()
    ensures a.AtLeast(b) <==> a.Value() >= b.Value()
  {
  }

  /** Two-word equality is equality of the numbers. */
  lemma SameValueSameWords(a: U128, b: U128)
    ensures a == b <==> a.Value() == b.Value()
  {
  }

  class Uint128 {
    var high: u64
    var low: u64

    function Get(): U128
      reads this
    {
      U128(high, low)
    }

    constructor (h: u64, l: u64)
      ensures Get() == U128(h, l)
    {
      high, low := h, l;
    }

    /** operator+=; `other` may be this very object. */
    method AddAssign(other: Uint128)
      modifies this
      ensures Get().Value() == (old(Get().Value()) + old(other.Get().Value())) % WRAP
    {
      ghost var a, b := Get(), other.Get();
      high := Wrap64(high + other.high);
      var newLow := Wrap64(low + other.low);
      if newLow < low {
        high := Wrap64(high + 1);
      }
      low := newLow;
      assert Get() == Sum(a, b);
      TwoWordSum(a, b);
    }

    /** operator-=; `other` may be this very object. */
    method SubAssign(other: Uint128)
      modifies this
      ensures Get().Value() == (old(Get().Value()) - old(other.Get().Value())) % WRAP
    {
      ghost var a, b := Get(), other.Get();
      high := Wrap64(high - other.high);
      var newLow := Wrap64(low - other.low);
      if newLow > low {
        high := Wrap64(high - 1);
      }
      low := newLow;
      assert Get() == Difference(a, b);
      TwoWordDifference(a, b);
    }

    /** The postfix operator++, which hands out connection ids. */
    method PostIncrement() returns (before: U128)
      modifies this
      ensures before == old(Get())
      ensures Get().Value() == (before.Value() + 1) % WRAP
    {
      before := Get();
      var one := new Uint128(0, 1);
      AddAssign(one);
    }

    /** The postfix operator--. */
    method PostDecrement() returns (before: U128)
      modifies this
      ensures before == old(Get())
      ensures Get().Value() == (before.Value() - 1) % WRAP
    {
      before := Get();
      var one := new Uint128(0, 1);
      SubAssign(one);
    }
  }

  /** Word by word, with the carry test `new_low < low`. */
  function Sum(a: U128, b: U128): U128 {
    var low, high := Wrap64(a.low + b.low), Wrap64(a.high + b.high);
    U128(if low < a.low then Wrap64(high + 1) else high, low)
  }

  /** The carry test is right for every pair of operands. */
  lemma TwoWordSum(a: U128, b: U128)
    ensures Sum(a, b).Value() == (a.Value() + b.Value()) % WRAP
  {
    var carry := if a.low + b.low >= WORD then 1 else 0;
    var top := a.high + b.high + carry;
    var q := if top >= WORD then 1 else 0;
    Wrapped(a.low + b.low, -carry);
    Wrapped(top, -q);
    WrappedTwice(a.high + b.high, 1);
    Assembled(a.high, a.low, b.high, b.low, carry, q, Sum(a, b));
  }

  lemma Wrapped(x: int, k: int)
    requires 0 <= x + k * WORD < WORD
    ensures Wrap64(x) == x + k * WORD
  {
  }

  lemma WrappedTwice(x: int, y: int)
    ensures Wrap64(Wrap64(x) + y) == Wrap64(x + y)
  {
  }

  /** The words of a result, once it is known how far each has wrapped. */
  lemma Assembled(h: int, l: int, oh: int, ol: int, carry: int, q: int, r: U128)
    requires r.low == l + ol - carry * WORD && r.high == h + oh + carry - q * WORD
    ensures r.Value() == (h * WORD + l + (oh * WORD + ol)) % WRAP
  {
    Reduced(h * WORD + l + (oh * WORD + ol), q, r.Value());
  }

  lemma Reduced(x: int, q: int, r: int)
    requires x == q * WRAP + r && 0 <= r < WRAP
    ensures x % WRAP == r
  {
  }

  /** Word by word, with the borrow test `new_low > low`. */
  function Difference(a: U128, b: U128): U128 {
    var low, high := Wrap64(a.low - b.low), Wrap64(a.high - b.high);
    U128(if low > a.low then Wrap64(high - 1) else high, low)
  }

  /** The borrow test is right for every pair of operands. */
  lemma TwoWordDifference(a: U128, b: U128)
    ensures Difference(a, b).Value() == (a.Value() - b.Value()) % WRAP
  {
    var borrow := if a.low < b.low then 1 else 0;
    var top := a.high - b.high - borrow;
    var q := if top < 0 then 1 else 0;
    Wrapped(a.low - b.low, borrow);
    Wrapped(top, q);
    WrappedTwice(a.high - b.high, -1);
    var oh: int, ol: int := b.high, b.low;
    Assembled(a.high, a.low, -oh, -ol, -borrow, -q, Difference(a, b));
  }

  // ---------------------------------------------------------------- printing

  datatype Adjust = Left | Right | Internal

  /** The part of a stream's formatting state that matters to the printer. */
  datatype Format = Format(hex: bool, width: nat, fill: char, adjust: Adjust, showbase: bool, uppercase: bool)

  /** Filled up to the width, where the adjustment says; `prefix` is the length of a base prefix. */
  function Filled(s: string, prefix: nat, f: Format): string
    requires prefix <= |s|
  {
    if |s| >= f.width then s
    else
      var pad := Hex.Repeat(f.fill, f.width - |s|);
      match f.adjust
      case Left => s + pad
      case Right => pad + s
      case Internal => s[..prefix] + pad + s[prefix..]
  }

  function Upper(s: string): (r: string)
    ensures |r| == |s|
  {
    if s == [] then []
    else
      var c := s[|s| - 1];
      Upper(s[..|s| - 1]) + [if 'a' <= c <= 'f' then c - 'a' + 'A' else c]
  }

  /** The base prefix of a word; zero has none. */
  function Base(w: u64, f: Format): string {
    if f.showbase && w != 0 then (if f.uppercase then "0X" else "0x") else ""
  }

  function WordDigits(w: u64, f: Format): string {
    if f.uppercase then Upper(Hex.Digits(w)) else Hex.Digits(w)
  }

  /** A word under std::hex, filled up to the width. */
  function Word(w: u64, f: Format): string {
    Filled(Base(w, f) + WordDigits(w, f), |Base(w, f)|, f)
  }

  /** What follows the 0x: the low word has the width 16 only under a nonzero high word. */
  function Shown(n: U128, f: Format): string {
    var f0 := f.(width := 0);
    if n.high == 0 then Word(n.low, f0) else Word(n.high, f0) + Word(n.low, f.(width := 16, fill := '0'))
  }

  class OStream {
    var text: string
    var fmt: Format

    constructor (f: Format)
      ensures text == "" && fmt == f
    {
      text, fmt := "", f;
    }

    /** A string: filled up to the pending width once, which clears it. */
    method Put(s: string)
      modifies this
      ensures text == old(text) + Filled(s, 0, old(fmt))
      ensures fmt == old(fmt).(width := 0)
    {
      text := text + Filled(s, 0, fmt);
      fmt := fmt.(width := 0);
    }

    /** An unsigned word under std::hex. */
    method PutWord(w: u64)
      requires fmt.hex
      modifies this
      ensures text == old(text) + Word(w, old(fmt))
      ensures fmt == old(fmt).(width := 0)
    {
      text := text + Word(w, fmt);
      fmt := fmt.(width := 0);
    }

    /** operator<<: the saved formatting state is put back, so only the text grows. */
    method PutUint128(n: U128)
      modifies this
      ensures fmt == old(fmt)
      ensures text == old(text) + Filled("0x", 0, old(fmt)) + Shown(n, old(fmt).(hex := true))
    {
      var saved := fmt;
      Put("0x");
      PutWords(n);
      fmt := saved;
    }

    method PutWords(n: U128)
      requires fmt.width == 0
      modifies this
      ensures text == old(text) + Shown(n, old(fmt).(hex := true))
    {
      fmt := fmt.(hex := true);
      ghost var f := fmt;
      if n.high == 0 {
        PutWord(n.low);
      } else {
        PutWord(n.high);
        fmt := fmt.(width := 16, fill := '0');
        PutWord(n.low);
        Regroup(old(text), Word(n.high, f), Word(n.low, f.(width := 16, fill := '0')));
      }
    }
  }

  lemma {:induction false} UpperAt(s: string, i: nat)
    requires i < |s|
    ensures Upper(s)[i] == if 'a' <= s[i] <= 'f' then s[i] - 'a' + 'A' else s[i]
    decreases |s|
  {
    if i < |s| - 1 { UpperAt(s[..|s| - 1], i); }
  }

  /** The digits of a word: none too many, and all in the case asked for. */
  lemma WordDigitsMeans(w: u64, f: Format)
    ensures var d := WordDigits(w, f);
      && (forall i :: 0 <= i < |d| ==> d[i] in if f.uppercase then "0123456789ABCDEF" else "0123456789abcdef")
      && (w > 0 ==> d[0] != '0')
  {
    var s, d := Hex.Digits(w), WordDigits(w, f);
    Hex.DigitsAreShortest(w);
    if f.uppercase {
      forall i | 0 <= i < |d| ensures d[i] in "0123456789ABCDEF" && (s[i] != '0' ==> d[i] != '0') {
        UpperAt(s, i);
        UpperDigit(s[i]);
      }
    }
  }

  lemma UpperDigit(c: char)
    requires c in "0123456789abcdef"
    ensures (if 'a' <= c <= 'f' then c - 'a' + 'A' else c) in "0123456789ABCDEF"
  {
    var k :| 0 <= k < 16 && "0123456789abcdef"[k] == c;
    assert "0123456789ABCDEF"[k] == if 'a' <= c <= 'f' then c - 'a' + 'A' else c;
  }

  /** Filling adds what is missing to the width, in one place: behind, in front, or behind the prefix. */
  lemma FilledMeans(s: string, prefix: nat, f: Format)
    requires prefix <= |s|
    ensures var at := match f.adjust case Left => |s| case Right => 0 case Internal => prefix;
      Filled(s, prefix, f) == s[..at] + Hex.Repeat(f.fill, if |s| < f.width then f.width - |s| else 0) + s[at..]
  {
    var at := match f.adjust case Left => |s| case Right => 0 case Internal => prefix;
    if |s| >= f.width {
      assert Hex.Repeat(f.fill, 0) == [];
      assert s[..at] + [] + s[at..] == s;
    } else {
      assert s[..|s|] == s && s[|s|..] == [] && s[..0] == [] && s[0..] == s;
    }
  }

  lemma SixteenDigitsFillAWord()
    ensures Hex.Pow16(16) == WORD
  {
    assert Hex.Pow16(4) == 0x1_0000;
    assert Hex.Pow16(8) == 0x1_0000_0000;
    assert Hex.Pow16(12) == 0x1_0000_0000_0000;
  }

  lemma AtMostSixteenDigits(w: u64)
    ensures |Hex.Digits(w)| <= 16
  {
    SixteenDigitsFillAWord();
    Hex.DigitsLength(w, 16);
  }

  lemma {:induction false} UpperIsHex(s: string)
    requires Hex.IsHex(s)
    ensures Hex.IsHex(Upper(s)) && Hex.Value(Upper(s)) == Hex.Value(s)
  {
    if s != [] {
      var init, c := s[..|s| - 1], s[|s| - 1];
      UpperIsHex(init);
      assert Upper(s)[..|s| - 1] == Upper(init);
      assert Hex.DigitValue(c).Some? && Hex.DigitValue(Upper(s)[|s| - 1]) == Hex.DigitValue(c);
    }
  }

  /** The digits of a word, in either case, have its value. */
  lemma WordValue(w: u64, f: Format)
    ensures var d := WordDigits(w, f); 0 < |d| <= 16 && |d| == |Hex.Digits(w)| && Hex.IsHex(d) && Hex.Value(d) == w
  {
    AtMostSixteenDigits(w);
    UpperIsHex(Hex.Digits(w));
  }

  lemma NoBase(w: u64, f: Format)
    requires !f.showbase
    ensures Word(w, f) == Filled(WordDigits(w, f), 0, f)
  {
    assert "" + WordDigits(w, f) == WordDigits(w, f);
  }

  lemma FilledInFront(d: string, f: Format)
    requires !f.adjust.Left? && |d| <= f.width
    ensures Filled(d, 0, f) == Hex.Repeat(f.fill, f.width - |d|) + d
  {
    var pad := Hex.Repeat(f.fill, f.width - |d|);
    assert d[..0] == "" && d[0..] == d && "" + pad == pad;
    if |d| == f.width { assert pad + d == d; }
  }

  lemma FilledBehind(d: string, f: Format)
    requires f.adjust.Left? && |d| <= f.width
    ensures Filled(d, 0, f) == d + Hex.Repeat(f.fill, f.width - |d|)
  {
    if |d| == f.width { assert d + Hex.Repeat(f.fill, 0) == d; }
  }

  /** Zeros in front leave a value alone. */
  lemma RightFilled(w: u64, f: Format)
    requires !f.showbase && !f.adjust.Left? && f.width == 16 && f.fill == '0'
    ensures var p := Word(w, f); |p| == 16 && Hex.IsHex(p) && Hex.Value(p) == w
  {
    WordValue(w, f);
    NoBase(w, f);
    FilledRight(WordDigits(w, f), f);
  }

  lemma FilledRight(d: string, f: Format)
    requires !f.adjust.Left? && f.width == 16 && f.fill == '0' && Hex.IsHex(d) && |d| <= 16
    ensures var p := Filled(d, 0, f); |p| == 16 && Hex.IsHex(p) && Hex.Value(p) == Hex.Value(d)
  {
    FilledInFront(d, f);
    Hex.LeadingZeros(16 - |d|, d);
  }

  /** Zeros behind multiply it. */
  lemma LeftFilled(w: u64, f: Format)
    requires !f.showbase && f.adjust.Left? && f.width == 16 && f.fill == '0'
    ensures var p := Word(w, f);
      |p| == 16 && Hex.IsHex(p) && |Hex.Digits(w)| <= 16 && Hex.Value(p) == Hex.Scaled(w, 16 - |Hex.Digits(w)|)
  {
    WordValue(w, f);
    NoBase(w, f);
    FilledLeft(WordDigits(w, f), f);
  }

  lemma FilledLeft(d: string, f: Format)
    requires f.adjust.Left? && f.width == 16 && f.fill == '0' && Hex.IsHex(d) && |d| <= 16
    ensures var p := Filled(d, 0, f); |p| == 16 && Hex.IsHex(p) && Hex.Value(p) == Hex.Scaled(Hex.Value(d), 16 - |d|)
  {
    FilledBehind(d, f);
    Hex.TrailingZeros(d, 16 - |d|);
  }

  /** How the low word comes out under a nonzero high one. */
  predicate LowIsRight(low: u64, f: Format) {
    !f.adjust.Left? || low == 0 || |Hex.Digits(low)| == 16
  }

  /** When the text is the number. */
  predicate Plain(n: U128, f: Format) {
    (!f.showbase || n == U128(0, 0)) && (n.high == 0 || LowIsRight(n.low, f))
  }

  lemma LowWordIff(low: u64, f: Format)
    requires !f.showbase && f.width == 16 && f.fill == '0'
    ensures var p := Word(low, f); |p| == 16 && Hex.IsHex(p) && (Hex.Value(p) == low <==> LowIsRight(low, f))
  {
    if f.adjust.Left? {
      LeftFilled(low, f);
      Hex.ScaledIff(low, 16 - |Hex.Digits(low)|);
    } else {
      RightFilled(low, f);
    }
  }

  lemma HighWord(w: u64, f: Format)
    requires f.width == 0
    ensures Word(w, f) == Base(w, f) + WordDigits(w, f)
  {
  }

  lemma NotHex(s: string, i: nat)
    requires i < |s| && Hex.DigitValue(s[i]).None?
    ensures !Hex.IsHex(s)
  {
  }

  /** A base prefix is no digit. */
  lemma PrefixIsNoDigit(w: u64, f: Format, rest: string)
    requires f.showbase && w != 0 && f.width == 0
    ensures !Hex.IsHex(Word(w, f) + rest)
  {
    HighWord(w, f);
    var s := Word(w, f) + rest;
    assert s[1] == if f.uppercase then 'X' else 'x';
    NotHex(s, 1);
  }

  ghost predicate ReadsBack(n: U128, f: Format) {
    Hex.IsHex(Shown(n, f)) && Hex.Value(Shown(n, f)) == n.Value()
  }

  lemma TwoWordsReadBackIff(n: U128, f: Format)
    requires !f.showbase && n.high != 0
    ensures ReadsBack(n, f) <==> LowIsRight(n.low, f)
  {
    var f0, f16 := f.(width := 0), f.(width := 16, fill := '0');
    HighWord(n.high, f0);
    assert "" + WordDigits(n.high, f0) == WordDigits(n.high, f0);
    WordValue(n.high, f0);
    LowWordIff(n.low, f16);
    Hex.ValueOfConcat(Word(n.high, f0), Word(n.low, f16));
    SixteenDigitsFillAWord();
  }

  /**
   What is printed reads back as the number exactly if no base prefix is shown inside it, and
   under a nonzero high word the low one is not left-adjusted, or has all its digits, or is 0.
   */
  lemma ReadsBackIff(n: U128, f: Format)
    ensures ReadsBack(n, f) <==> Plain(n, f)
  {
    var f0 := f.(width := 0);
    if f.showbase && n != U128(0, 0) {
      if n.high == 0 {
        PrefixIsNoDigit(n.low, f0, "");
        assert Word(n.low, f0) + "" == Word(n.low, f0);
      } else {
        PrefixIsNoDigit(n.high, f0, Word(n.low, f.(width := 16, fill := '0')));
      }
    } else if n.high == 0 {
      HighWord(n.low, f0);
      assert "" + WordDigits(n.low, f0) == WordDigits(n.low, f0);
      WordValue(n.low, f0);
    } else {
      TwoWordsReadBackIff(n, f);
    }
  }

  // ------------------------------------------------- telling numbers apart

  /** Two numbers a left-adjusted stream prints alike: without prefixes, 0x11 followed by fifteen zeros. */
  lemma PrintedAlike(f: Format)
    requires f.adjust.Left?
    ensures Shown(U128(1, 1), f) == Shown(U128(1, 16), f)
  {
    var f16 := f.(width := 16, fill := '0');
    OneAndTen(f16);
    PaddedBehind(Base(1, f16), f16);
  }

  lemma OneAndTen(f: Format)
    ensures WordDigits(1, f) == "1" && WordDigits(16, f) == "10"
  {
    assert Hex.Digits(1) == "1" && Hex.Digits(16) == "1" + "0";
    assert "10"[..1] == "1" && "1"[..0] == "";
    assert Upper("1") == "1" && Upper("10") == "10";
  }

  lemma PaddedBehind(base: string, f: Format)
    requires f.adjust.Left? && f.width == 16 && f.fill == '0' && |base| <= 2
    ensures Filled(base + "1", |base|, f) == Filled(base + "10", |base|, f)
  {
    var k := 14 - |base|;
    assert Hex.Repeat('0', k + 1) == "0" + Hex.Repeat('0', k);
    assert "1" + ("0" + Hex.Repeat('0', k)) == "10" + Hex.Repeat('0', k);
    assert base + "1" + Hex.Repeat('0', k + 1) == base + "10" + Hex.Repeat('0', k);
  }

  /** The letter of a base prefix. */
  function Mark(f: Format): char {
    if f.uppercase then 'X' else 'x'
  }

  /** The zeros that fill a prefix and d up to sixteen characters. */
  ghost function Gap(d: string): string {
    Hex.Repeat('0', if |d| < 14 then 14 - |d| else 0)
  }

  /** A prefixed low word, before and after the letter of the prefix. */
  ghost function LowHead(d: string, f: Format): string {
    if f.adjust.Right? then Gap(d) + "0" else "0"
  }

  ghost function LowTail(d: string, f: Format): string {
    if f.adjust.Right? then d else Gap(d) + d
  }

  lemma FilledPrefixed(base: string, d: string, f: Format)
    requires !f.adjust.Left? && f.width == 16 && f.fill == '0' && base == "0" + [Mark(f)]
    ensures Filled(base + d, 2, f) == LowHead(d, f) + [Mark(f)] + LowTail(d, f)
  {
    var s := base + d;
    assert s[..2] == base && s[2..] == d;
    if |d| >= 14 {
      assert Gap(d) == "";
      assert Gap(d) + "0" == "0" && Gap(d) + d == d;
    } else {
      assert Gap(d) == Hex.Repeat('0', 16 - |s|);
      assert Gap(d) + s == Gap(d) + "0" + [Mark(f)] + d;
      assert base + Gap(d) + d == "0" + [Mark(f)] + (Gap(d) + d);
    }
  }

  /** What is shown with prefixes, before and after the last of them. */
  ghost function Head(n: U128, f: Format): string {
    if n.high == 0 || n.low == 0 then "0"
    else "0" + [Mark(f)] + WordDigits(n.high, f) + LowHead(WordDigits(n.low, f), f)
  }

  ghost function Tail(n: U128, f: Format): string {
    if n.high == 0 then WordDigits(n.low, f)
    else if n.low == 0 then WordDigits(n.high, f) + Hex.Repeat('0', 16)
    else LowTail(WordDigits(n.low, f), f)
  }

  lemma ZeroWord(f: Format)
    requires !f.adjust.Left? && f.width == 16 && f.fill == '0'
    ensures Word(0, f) == Hex.Repeat('0', 16)
  {
    ZeroDigits(f);
    assert "" + "0" == "0";
    FilledInFront("0", f);
  }

  lemma ZeroDigits(f: Format)
    ensures WordDigits(0, f) == "0"
  {
    assert Hex.Digits(0) == "0" && Upper("0") == "0";
  }

  lemma SplitShown(n: U128, f: Format)
    requires f.showbase && !f.adjust.Left? && n != U128(0, 0)
    ensures Shown(n, f) == Head(n, f) + [Mark(f)] + Tail(n, f)
  {
    var f0, f16 := f.(width := 0), f.(width := 16, fill := '0');
    var m := Mark(f);
    assert Base(1, f) == "0" + [m];
    if n.high == 0 {
      HighWord(n.low, f0);
    } else if n.low == 0 {
      HighWord(n.high, f0);
      ZeroWord(f16);
      Regroup("0" + [m], WordDigits(n.high, f), Hex.Repeat('0', 16));
    } else {
      var h, d := WordDigits(n.high, f), WordDigits(n.low, f);
      HighWord(n.high, f0);
      FilledPrefixed("0" + [m], d, f16);
      Regroup("0" + [m] + h, LowHead(d, f) + [m], LowTail(d, f));
      Regroup("0" + [m] + h, LowHead(d, f), [m]);
    }
  }

  lemma NoMark(s: string, f: Format)
    requires Hex.IsHex(s)
    ensures Mark(f) !in s
  {
  }

  lemma TailIsHex(n: U128, f: Format)
    requires !f.adjust.Left?
    ensures Hex.IsHex(Tail(n, f))
    ensures n.high == 0 || n.low != 0 ==> Hex.Value(Tail(n, f)) == n.low
  {
    var d := WordDigits(n.low, f);
    WordValue(n.low, f);
    WordValue(n.high, f);
    Hex.ZerosHaveNoValue(16);
    if n.high != 0 && n.low != 0 && !f.adjust.Right? { Hex.LeadingZeros(|Gap(d)|, d); }
  }

  lemma MarkedUpTo(c: char, u: string, s: string, k: nat)
    requires c !in s && k < |u + [c] + s| && (u + [c] + s)[k] == c
    ensures k <= |u|
  {
    assert (u + [c] + s)[|u| + 1..] == s;
  }

  /** The last mark splits a text in one way only. */
  lemma LastMark(c: char, u: string, s: string, v: string, t: string)
    requires c !in s && c !in t && u + [c] + s == v + [c] + t
    ensures u == v && s == t
  {
    var x := u + [c] + s;
    assert x[|u|] == c && x[|v|] == c;
    MarkedUpTo(c, u, s, |v|);
    MarkedUpTo(c, v, t, |u|);
    assert x[..|u|] == u && x[..|v|] == v && x[|u| + 1..] == s && x[|v| + 1..] == t;
  }

  lemma SameDigits(a: u64, b: u64, f: Format)
    requires WordDigits(a, f) == WordDigits(b, f)
    ensures a == b
  {
    WordValue(a, f);
    WordValue(b, f);
  }

  lemma SameHead(a: U128, b: U128, f: Format)
    requires a.high != 0 && b.high != 0 && a.low == b.low && Head(a, f) == Head(b, f) && Tail(a, f) == Tail(b, f)
    ensures a == b
  {
    var m, x, y := Mark(f), WordDigits(a.high, f), WordDigits(b.high, f);
    if a.low == 0 {
      assert "" + x == x && "" + y == y;
      SameFront("", x, y, Hex.Repeat('0', 16));
    } else {
      SameFront("0" + [m], x, y, LowHead(WordDigits(a.low, f), f));
    }
    SameDigits(a.high, b.high, f);
  }

  lemma SameFront(p: string, x: string, y: string, q: string)
    requires p + x + q == p + y + q
    ensures x == y
  {
    assert |x| == |y|;
    assert (p + x + q)[|p|..|p| + |x|] == x && (p + y + q)[|p|..|p| + |y|] == y;
  }

  /** Only zero is shown as one character. */
  lemma ShownLength(n: U128, f: Format)
    requires f.showbase && !f.adjust.Left?
    ensures |Shown(n, f)| == 1 <==> n == U128(0, 0)
  {
    if n == U128(0, 0) {
      ZeroDigits(f);
    } else {
      SplitShown(n, f);
      assert Head(n, f) != [];
    }
  }

  /** The lengths tell the shapes apart. */
  lemma ShapeOf(n: U128, f: Format)
    requires n != U128(0, 0)
    ensures |Head(n, f)| == 1 <==> n.high == 0 || n.low == 0
    ensures |Head(n, f)| == 1 ==> (|Tail(n, f)| <= 16 <==> n.high == 0)
  {
    WordValue(n.low, f);
    WordValue(n.high, f);
  }

  lemma ShapesApart(a: U128, b: U128, f: Format)
    requires !f.adjust.Left? && a != U128(0, 0) && b != U128(0, 0)
    requires Head(a, f) == Head(b, f) && Tail(a, f) == Tail(b, f)
    ensures a == b
  {
    ShapeOf(a, f);
    ShapeOf(b, f);
    TailIsHex(a, f);
    TailIsHex(b, f);
    if a.high != 0 { SameHead(a, b, f); }
  }

  /** Shape by shape, what is shown with prefixes tells the number. */
  lemma PrefixedApart(a: U128, b: U128, f: Format)
    requires f.showbase && !f.adjust.Left? && Shown(a, f) == Shown(b, f)
    ensures a == b
  {
    ShownLength(a, f);
    ShownLength(b, f);
    if a != U128(0, 0) {
      SplitShown(a, f);
      SplitShown(b, f);
      TailIsHex(a, f);
      TailIsHex(b, f);
      NoMark(Tail(a, f), f);
      NoMark(Tail(b, f), f);
      LastMark(Mark(f), Head(a, f), Tail(a, f), Head(b, f), Tail(b, f));
      ShapesApart(a, b, f);
    }
  }

  /** A stream prints different numbers differently exactly if it is not left-adjusted. */
  lemma InjectiveIff(f: Format)
    ensures (forall a, b :: Shown(a, f) == Shown(b, f) ==> a == b) <==> !f.adjust.Left?
  {
    if f.adjust.Left? {
      PrintedAlike(f);
      assert U128(1, 1) != U128(1, 16);
    } else {
      forall a, b | Shown(a, f) == Shown(b, f) ensures a == b {
        if f.showbase {
          PrefixedApart(a, b, f);
        } else {
          ReadsBackIff(a, f);
          ReadsBackIff(b, f);
          SameValueSameWords(a, b);
        }
      }
    }
  }
}
