/**
 param_to_bytes of CLI/utils.c: a field of 32, 48 or 128 bits is first tried as an IPv4, MAC or
 IPv6 address, on a copy that the tokeniser cuts as it goes; what is left of the copy is then
 read as hexadecimal.
 */
module CliParam {
  import opened Basics
  import opened Wire
  import opened BigEndian
  import opened Hex
  import opened HexParse

  // ------------------------------------------------------------ tokenising

  /** How many separators s starts with. */
  function Lead(s: string, sep: char): (n: nat)
    ensures n <= |s| && (n < |s| ==> s[n] != sep)
  {
    if s == [] || s[0] != sep then 0 else 1 + Lead(s[1..], sep)
  }

  /** How many other characters s starts with. */
  function Run(s: string, sep: char): (n: nat)
    ensures n <= |s| && (n < |s| ==> s[n] == sep) && sep !in s[..n]
  {
    if s == [] || s[0] == sep then 0
    else
      var n := Run(s[1..], sep);
      assert s[..n + 1] == [s[0]] + s[1..][..n];
      1 + n
  }

  /** A call of strtok_r: the token, whether a separator after it was overwritten, and what follows. */
  datatype Token = NoToken | Token(text: string, cut: bool, rest: string)

  function NextToken(s: string, sep: char): Token {
    var t := s[Lead(s, sep)..];
    var n := Run(t, sep);
    if t == [] then NoToken
    else if n < |t| then Token(t[..n], true, t[n + 1..])
    else Token(t, false, [])
  }

  /** What the copy reads as, as a C string, after the first of these calls. */
  function Remaining(s: string, sep: char): string {
    var lead := Lead(s, sep);
    s[..lead + Run(s[lead..], sep)]
  }

  // ---------------------------------------------------------------- numbers

  predicate IsSpace(c: char) {
    c == ' ' || '\t' <= c <= '\r'
  }

  function SkipSpaces(s: string): string {
    if s == [] || !IsSpace(s[0]) then s else SkipSpaces(s[1..])
  }

  /** The radixes strtol is used with. */
  datatype Radix = Decimal | Hexadecimal {
    function Base(): nat {
      if this == Decimal then 10 else 16
    }

    function Append(n: nat, d: nat): nat {
      if this == Decimal then 10 * n + d else 16 * n + d
    }
  }

  function DigitIn(c: char, radix: Radix): Option<nat> {
    match DigitValue(c)
    case None => None
    case Some(d) => if d < radix.Base() then Some(d) else None
  }

  predicate AllDigits(s: string, radix: Radix) {
    s == [] || (DigitIn(s[|s| - 1], radix).Some? && AllDigits(s[..|s| - 1], radix))
  }

  function Numeral(s: string, radix: Radix): nat
    requires AllDigits(s, radix)
  {
    if s == [] then 0 else radix.Append(Numeral(s[..|s| - 1], radix), DigitIn(s[|s| - 1], radix).value)
  }

  /** The digits strtol reads; hexadecimal allows a prefix in front of a digit. */
  function NumeralPart(s: string, radix: Radix): string {
    if radix == Hexadecimal && |s| > 2 && s[0] == '0' && (s[1] == 'x' || s[1] == 'X') && DigitIn(s[2], Hexadecimal).Some? then s[2..] else s
  }

  /** strtol over all of a token: spaces, a sign, digits. None when it stops before the end. */
  function StrToL(token: string, radix: Radix): Option<int> {
    var s := SkipSpaces(token);
    var minus := s != [] && s[0] == '-';
    var t := if s != [] && (s[0] == '-' || s[0] == '+') then s[1..] else s;
    var d := NumeralPart(t, radix);
    if d == [] || !AllDigits(d, radix) then None
    else
      var v: int := Numeral(d, radix);
      Some(if minus then -v else v)
  }

  /** A token as one byte of an address. */
  function Octet(token: string, radix: Radix): Option<byte> {
    match StrToL(token, radix)
    case None => None
    case Some(v) => if 0 <= v < 256 then Some(v) else None
  }

  // -------------------------------------------------------------- addresses

  /** An address of n bytes: how tokens are found in it, and what a token stands for. */
  datatype Form = Form(n: nat, next: string -> Token, octet: string -> Option<byte>)

  function TokensBy(sep: char): string -> Token {
    (s: string) => NextToken(s, sep)
  }

  function OctetIn(radix: Radix): string -> Option<byte> {
    (t: string) => Octet(t, radix)
  }

  const IPV4 := Form(4, TokensBy('.'), OctetIn(Decimal))
  const MAC := Form(6, TokensBy(':'), OctetIn(Hexadecimal))

  /** The next n bytes, and whether text follows the last token; `cut` is of the token before. */
  datatype Parsed = Failed | Parsed(octets: seq<byte>, cut: bool)

  function Octets(f: Form, s: string, n: nat, cut: bool): Parsed
    decreases n
  {
    if n == 0 then Parsed([], cut)
    else
      match f.next(s)
      case NoToken => Failed
      case Token(text, c, rest) =>
        match f.octet(text)
        case None => Failed
        case Some(v) =>
          match Octets(f, rest, n - 1, c)
          case Failed => Failed
          case Parsed(later, c') => Parsed([v] + later, c')
  }

  /** The last token must end the text. */
  function Address(f: Form, s: string): Option<seq<byte>> {
    match Octets(f, s, f.n, false)
    case Failed => None
    case Parsed(octets, cut) => if cut then None else Some(octets)
  }

  /** try_to_parse_ipv4 and try_to_parse_macAddr. */
  method TryToParse(f: Form, s: string, bytes: array<byte>) returns (ok: bool)
    requires f.n <= bytes.Length
    modifies bytes
    ensures ok <==> Address(f, s).Some?
    ensures ok ==> Address(f, s) == Some(bytes[..f.n])
  {
    var rest, cut := s, false;
    ghost var all := Octets(f, s, f.n, false);
    for i := 0 to f.n
      invariant Continues(all, bytes[..i], Octets(f, rest, f.n - i, cut))
    {
      var token := f.next(rest);
      if token.NoToken? {
        return false;
      }
      var v := f.octet(token.text);
      if v.None? {
        return false;
      }
      NextOctet(all, bytes[..i], f, rest, f.n - i, cut);
      ghost var done := bytes[..i];
      bytes[i] := v.value;
      assert bytes[..i + 1] == done + [v.value];
      rest, cut := token.rest, token.cut;
    }
    assert bytes[..f.n] + [] == bytes[..f.n];
    return !cut;
  }

  /** All bytes are those done followed by those to come, if they come. */
  ghost predicate Continues(all: Parsed, done: seq<byte>, later: Parsed) {
    match later
    case Failed => all.Failed?
    case Parsed(more, cut) => all == Parsed(done + more, cut)
  }

  lemma NextOctet(all: Parsed, done: seq<byte>, f: Form, s: string, n: nat, cut: bool)
    requires n > 0 && f.next(s).Token? && f.octet(f.next(s).text).Some?
    requires Continues(all, done, Octets(f, s, n, cut))
    ensures Continues(all, done + [f.octet(f.next(s).text).value], Octets(f, f.next(s).rest, n - 1, f.next(s).cut))
  {
    var v, later := f.octet(f.next(s).text).value, Octets(f, f.next(s).rest, n - 1, f.next(s).cut);
    if later.Parsed? {
      assert done + ([v] + later.octets) == (done + [v]) + later.octets;
    }
  }

  // ------------------------------------------------------------------ fields

  /** The copy param_to_bytes works on: its length check never fires, longer text is cut. */
  function Copied(param: string): string {
    if |param| > 127 then param[..127] else param
  }

  function OrElse(attempt: Option<seq<byte>>, reading: Option<seq<byte>>): Option<seq<byte>> {
    if attempt.Some? then attempt else reading
  }

  /** The three attempts; inet_pton is a parameter. */
  datatype Attempts = Attempts(ipv4: string -> Option<seq<byte>>, mac: string -> Option<seq<byte>>, ipv6: string -> Option<seq<byte>>)

  function Standard(ipv6: string -> Option<seq<byte>>): Attempts {
    Attempts((s: string) => Address(IPV4, s), (s: string) => Address(MAC, s), ipv6)
  }

  /** What the copy of a field is read as. */
  function CopyReading(copy: string, bitwidth: nat, a: Attempts): Option<seq<byte>> {
    var width := (bitwidth + 7) / 8;
    if bitwidth == 32 then OrElse(a.ipv4(copy), Reading(Remaining(copy, '.'), width))
    else if bitwidth == 48 then OrElse(a.mac(copy), Reading(Remaining(copy, ':'), width))
    else if bitwidth == 128 then OrElse(a.ipv6(copy), Reading(copy, width))
    else Reading(copy, width)
  }

  function FieldReading(param: string, bitwidth: nat, a: Attempts): Option<seq<byte>> {
    CopyReading(Copied(param), bitwidth, a)
  }

  method ParamToBytes(param: string, bytes: array<byte>, bitwidth: nat, ipv6: string -> Option<seq<byte>>) returns (err: bool)
    requires bytes.Length == (bitwidth + 7) / 8
    requires ipv6(Copied(param)).Some? ==> |ipv6(Copied(param)).value| == 16
    modifies bytes
    ensures FieldReading(param, bitwidth, Standard(ipv6)) == if err then None else Some(bytes[..])
  {
    var copy := Copied(param);
    if bitwidth == 32 {
      err := AddressOrHex(IPV4, copy, Remaining(copy, '.'), bytes);
    } else if bitwidth == 48 {
      err := AddressOrHex(MAC, copy, Remaining(copy, ':'), bytes);
    } else {
      if bitwidth == 128 {
        var address := ipv6(copy);
        if address.Some? {
          Put(bytes, 0, address.value);
          assert bytes[..0] == [] && bytes[..16] == bytes[..];
          return false;
        }
      }
      err := HexStrToBytes(copy, bytes);
    }
  }

  /** The attempt, and the fallback on what it left of the copy. */
  method AddressOrHex(f: Form, copy: string, left: string, bytes: array<byte>) returns (err: bool)
    requires f.n == bytes.Length
    modifies bytes
    ensures OrElse(Address(f, copy), Reading(left, bytes.Length)) == if err then None else Some(bytes[..])
  {
    var ok := TryToParse(f, copy, bytes);
    if ok {
      assert bytes[..f.n] == bytes[..];
      return false;
    }
    err := HexStrToBytes(left, bytes);
  }

  // -------------------------------------------------------------- properties

  lemma {:induction false} RunOfAll(s: string, sep: char)
    requires sep !in s
    ensures Run(s, sep) == |s| && Lead(s, sep) == 0
  {
    if s != [] { RunOfAll(s[1..], sep); }
  }

  lemma NoSeparatorTokens(s: string, sep: char)
    requires sep !in s
    ensures NextToken(s, sep) == if s == [] then NoToken else Token(s, false, [])
    ensures Remaining(s, sep) == s
  {
    RunOfAll(s, sep);
    assert s[0..] == s && s[..|s|] == s;
  }

  /** Text that is a single token is no address. */
  lemma OneTokenIsNoAddress(f: Form, s: string)
    requires f.n > 1 && f.next([]).NoToken? && (f.next(s).NoToken? || f.next(s).rest == [])
    ensures Address(f, s).None?
  {
    assert f.next(s).Token? ==> Octets(f, [], f.n - 1, f.next(s).cut).Failed?;
  }

  /** A 32-bit field without a dot, or a 48-bit field without a colon, gets the hexadecimal reading. */
  lemma HexDespiteAddressAttempt(param: string, bitwidth: nat, a: Attempts, ipv6: string -> Option<seq<byte>>)
    requires a == Standard(ipv6)
    requires (bitwidth == 32 && '.' !in param) || (bitwidth == 48 && ':' !in param)
    ensures FieldReading(param, bitwidth, a) == Reading(param, (bitwidth + 7) / 8)
  {
    var c := Copied(param);
    if bitwidth == 32 {
      NoSeparatorTokens(c, '.');
      NoIpv4(c);
    } else {
      NoSeparatorTokens(c, ':');
      NoMac(c);
    }
    AfterFailure(param, bitwidth, a, c);
    if |param| > 127 { NarrowFieldRejectsLongText(param, (bitwidth + 7) / 8); }
  }

  lemma NoIpv4(s: string)
    requires '.' !in s
    ensures Address(IPV4, s).None?
  {
    NoSeparatorTokens(s, '.');
    NoSeparatorTokens([], '.');
    OneTokenIsNoAddress(IPV4, s);
  }

  lemma NoMac(s: string)
    requires ':' !in s
    ensures Address(MAC, s).None?
  {
    NoSeparatorTokens(s, ':');
    NoSeparatorTokens([], ':');
    OneTokenIsNoAddress(MAC, s);
  }

  /** Whatever the attempts are: when the one for the field fails, what is left is read. */
  lemma AfterFailure(param: string, bitwidth: nat, a: Attempts, left: string)
    requires var c := Copied(param);
      || (bitwidth == 32 && a.ipv4(c).None? && left == Remaining(c, '.'))
      || (bitwidth == 48 && a.mac(c).None? && left == Remaining(c, ':'))
    ensures FieldReading(param, bitwidth, a) == Reading(left, (bitwidth + 7) / 8)
  {
  }

  /** Where the first separator is, when text starts with something else. */
  lemma RemainingIsFirstPart(s: string, sep: char)
    requires s != []
    ensures s[0] != sep ==> Remaining(s, sep) == s[..Run(s, sep)]
    ensures s[0] == sep ==> sep in Remaining(s, sep)
  {
    if s[0] == sep {
      assert Remaining(s, sep)[0] == sep;
    } else {
      assert s[0..] == s;
    }
  }

  /** The attempt for a field of 32 or 48 bits, and the separator it looks for. */
  ghost predicate Tried(bitwidth: nat, sep: char, a: Attempts, param: string, attempt: Option<seq<byte>>) {
    || (bitwidth == 32 && sep == '.' && attempt == a.ipv4(param))
    || (bitwidth == 48 && sep == ':' && attempt == a.mac(param))
  }

  /** What comes before the first separator of c, if c has one and does not start with it, read as hexadecimal. */
  function FirstPart(c: string, sep: char, width: nat): Option<seq<byte>> {
    if sep in c && c[0] != sep then Reading(c[..Run(c, sep)], width) else None
  }

  /**
   A 32-bit field with a dot, or a 48-bit field with a colon, that is no address: accepted exactly
   when it does not start with the separator and what comes before it is hexadecimal and fits; and
   then read as just that. Of longer text this is said of the first 127 characters.
   */
  lemma SeparatedButNoAddress(param: string, bitwidth: nat, sep: char, a: Attempts)
    requires sep in Copied(param) && Tried(bitwidth, sep, a, Copied(param), None)
    ensures FieldReading(param, bitwidth, a) == FirstPart(Copied(param), sep, (bitwidth + 7) / 8)
  {
    var c := Copied(param);
    AfterFailure(param, bitwidth, a, Remaining(c, sep));
    RemainingIsFirstPart(c, sep);
    if c[0] == sep {
      NotHex(Remaining(c, sep), sep);
      NoReading(Remaining(c, sep), (bitwidth + 7) / 8);
    }
  }

  /**
   What is to be expected of such a field is its address or else its hexadecimal reading. Short
   text gets that exactly if it is an address, or has no separator, or starts with one, or what
   comes before the first one is not hexadecimal or does not fit. Longer text is too long to be
   hexadecimal here, and gets it exactly if the attempt on all of it comes to what its first 127
   characters give: their address, or else their first part.
   */
  lemma AddressOrHexIff(param: string, bitwidth: nat, sep: char, a: Attempts, whole: Option<seq<byte>>, cut: Option<seq<byte>>)
    requires Tried(bitwidth, sep, a, param, whole) && Tried(bitwidth, sep, a, Copied(param), cut)
    ensures var width := (bitwidth + 7) / 8;
      FieldReading(param, bitwidth, a) == OrElse(whole, Reading(param, width)) <==>
        if |param| <= 127 then whole.Some? || FirstPart(param, sep, width).None?
        else whole == OrElse(cut, FirstPart(param[..127], sep, width))
  {
    if |param| > 127 {
      NarrowFieldRejectsLongText(param, (bitwidth + 7) / 8);
      LongFieldReading(param, bitwidth, sep, a, cut);
    } else if whole.None? {
      ShortFieldReading(param, bitwidth, sep, a);
    }
  }

  /** A 128-bit field, tried as an IPv6 address, leaves its copy whole; only the cut can make a difference. */
  lemma Ipv6OrHexIff(param: string, a: Attempts)
    ensures FieldReading(param, 128, a) == OrElse(a.ipv6(param), Reading(param, 16)) <==>
            |param| <= 127 || a.ipv6(param[..127]) == a.ipv6(param)
  {
    if |param| > 127 { NarrowFieldRejectsLongText(param, 16); }
  }

  lemma LongFieldReading(param: string, bitwidth: nat, sep: char, a: Attempts, cut: Option<seq<byte>>)
    requires |param| > 127 && Tried(bitwidth, sep, a, Copied(param), cut)
    ensures FieldReading(param, bitwidth, a) == OrElse(cut, FirstPart(param[..127], sep, (bitwidth + 7) / 8))
  {
    var c := param[..127];
    if cut.None? && sep in c {
      SeparatedButNoAddress(param, bitwidth, sep, a);
    } else if cut.None? {
      NoSeparatorTokens(c, sep);
      AfterFailure(param, bitwidth, a, c);
      NarrowFieldRejectsLongText(param, (bitwidth + 7) / 8);
    }
  }

  lemma ShortFieldReading(param: string, bitwidth: nat, sep: char, a: Attempts)
    requires |param| <= 127 && Tried(bitwidth, sep, a, param, None)
    ensures var width := (bitwidth + 7) / 8;
      FieldReading(param, bitwidth, a) == Reading(param, width) <==> FirstPart(param, sep, width).None?
  {
    if sep in param {
      SeparatedButNoAddress(param, bitwidth, sep, a);
      NotHex(param, sep);
      NoReading(param, (bitwidth + 7) / 8);
    } else {
      NoSeparatorTokens(param, sep);
      AfterFailure(param, bitwidth, a, param);
    }
  }

  lemma NoReading(s: string, width: nat)
    requires !IsHex(Unprefixed(s))
    ensures Reading(s, width).None?
  {
  }

  lemma NotHex(s: string, c: char)
    requires c in s && DigitValue(c).None? && c != 'x'
    ensures !IsHex(Unprefixed(s))
  {
    var i :| 0 <= i < |s| && s[i] == c;
    if Unprefixed(s) != s {
      assert DigitValue('0').Some?;
      assert i >= 2 && Unprefixed(s)[i - 2] == c;
    }
  }

  /** So text that is neither an address nor hexadecimal can be accepted. */
  lemma AcceptsAFirstPart(a: Attempts, ipv6: string -> Option<seq<byte>>)
    requires a == Standard(ipv6)
    ensures FieldReading("12.34", 32, a) == Reading("12", 4) && Reading("12", 4).Some? && !IsHex("12.34")
  {
    var s := "12.34";
    FirstDot();
    TwoNumbers();
    SeparatedButNoAddress(s, 32, '.', a);
    assert s[2] == '.' && IsHex("12") && DigitValue(s[2]).None?;
  }

  lemma AcceptsAFirstPartOfMac(a: Attempts, ipv6: string -> Option<seq<byte>>)
    requires a == Standard(ipv6)
    ensures FieldReading("12:34", 48, a) == Reading("12", 6) && Reading("12", 6).Some? && !IsHex("12:34")
  {
    var s := "12:34";
    FirstColon();
    TwoBytes();
    SeparatedButNoAddress(s, 48, ':', a);
    assert s[2] == ':' && IsHex("12") && DigitValue(s[2]).None?;
  }

  lemma TwoBytes()
    ensures Address(MAC, "12:34").None?
  {
    FirstColon();
    NoSeparatorTokens([], ':');
    assert Octets(MAC, "", 4, false).Failed?;
    assert Octets(MAC, "34", 5, true).Failed?;
  }

  lemma FirstColon()
    ensures var s := "12:34"; Run(s, ':') == 2 && s[..2] == "12" && NextToken(s, ':') == Token("12", true, "34")
    ensures NextToken("34", ':') == Token("34", false, [])
  {
    assert "12:34" == "12" + ([':'] + "34");
    FirstOf("12", ':', "34");
    RunStops("12", ':', "34");
    NoSeparatorTokens("34", ':');
  }

  lemma TwoNumbers()
    ensures Address(IPV4, "12.34").None?
  {
    FirstDot();
    NoSeparatorTokens([], '.');
    assert Octets(IPV4, "", 2, false).Failed?;
    assert Octets(IPV4, "34", 3, true).Failed?;
  }

  lemma FirstDot()
    ensures var s := "12.34"; Run(s, '.') == 2 && s[..2] == "12" && NextToken(s, '.') == Token("12", true, "34")
    ensures NextToken("34", '.') == Token("34", false, [])
  {
    assert "12.34" == "12" + (['.'] + "34");
    FirstOf("12", '.', "34");
    RunStops("12", '.', "34");
    NoSeparatorTokens("34", '.');
  }

  /** No address is tried. */
  predicate PlainField(bitwidth: nat) {
    bitwidth != 32 && bitwidth != 48 && bitwidth != 128
  }

  lemma CutDigits(param: string)
    requires |param| > 127
    ensures var digits, first := Unprefixed(param), Unprefixed(param[..127]);
      |digits| > |first| && digits[..|first|] == first
  {
    var cut := param[..127];
    assert cut[0] == param[0] && cut[1] == param[1];
    if Unprefixed(param) != param {
      assert cut[2..] == param[2..][..125];
    }
  }

  /** Digits that go missing at the end make a difference unless the number is 0. */
  lemma DroppedDigitsIff(digits: string, n: nat)
    requires n < |digits| && IsHex(digits)
    ensures IsHex(digits[..n]) && (Value(digits[..n]) == Value(digits) <==> Value(digits) == 0)
  {
    var first, more := digits[..n], digits[n..];
    assert digits == first + more;
    ValueOfConcat(first, more);
    assert Pow16(|more|) == 16 * Pow16(|more| - 1);
    Dropped(Value(first), Pow16(|more| - 1), Value(more));
  }

  lemma Dropped(x: nat, m: nat, y: nat)
    requires m >= 1
    ensures x == x * (16 * m) + y <==> x * (16 * m) + y == 0
  {
    assert x * (16 * m) == 16 * (x * m);
    if x > 0 { assert x * m >= x; }
  }

  lemma CutIsNotRead(param: string, width: nat)
    requires |param| > 127 && Reading(param[..127], width).None?
    ensures Reading(param, width).None?
  {
    var digits, first := Unprefixed(param), Unprefixed(param[..127]);
    CutDigits(param);
    if IsHex(digits) {
      forall i | 0 <= i < |first| ensures DigitValue(first[i]).Some? {
        assert first[i] == digits[i];
      }
    }
  }

  /**
   A field that is no address is read as its text exactly if the text has at most 127 characters,
   or is rejected already by its first 127, or is accepted and denotes 0.
   */
  lemma LongTextIff(param: string, bitwidth: nat, a: Attempts)
    requires PlainField(bitwidth)
    ensures var width := (bitwidth + 7) / 8;
      FieldReading(param, bitwidth, a) == Reading(param, width) <==>
        || |param| <= 127
        || Reading(param[..127], width).None?
        || (Reading(param, width).Some? && Value(Unprefixed(param)) == 0)
  {
    var width := (bitwidth + 7) / 8;
    if |param| > 127 {
      var cut := param[..127];
      if Reading(cut, width).None? {
        CutIsNotRead(param, width);
      } else if Reading(param, width).Some? {
        CutDigits(param);
        DroppedDigitsIff(Unprefixed(param), |Unprefixed(cut)|);
        ReadingHasValue(param, width);
        ReadingHasValue(cut, width);
      }
    }
  }

  /** A narrow field rejects long text, cut or not. */
  lemma NarrowFieldRejectsLongText(param: string, width: nat)
    requires |param| > 127 && width <= 62
    ensures Reading(param, width).None? && Reading(param[..127], width).None?
  {
    CutDigits(param);
  }

  /** A wide field can lose digits: zeros, then a one that is not looked at. */
  lemma LongTextLosesDigits(bitwidth: nat, a: Attempts)
    requires bitwidth >= 512
    ensures var width, text := (bitwidth + 7) / 8, Repeat('0', 127) + "1";
      Reading(text, width) == Some(Bytes(width, 1)) && FieldReading(text, bitwidth, a) == Some(Bytes(width, 0))
  {
    var zeros := Repeat('0', 127);
    var width := (bitwidth + 7) / 8;
    ZerosHaveNoValue(127);
    LeadingZeros(127, "1");
    One();
    HexIsUnprefixed(zeros);
    HexIsUnprefixed(zeros + "1");
    assert Copied(zeros + "1") == zeros;
  }

  lemma One()
    ensures IsHex("1") && Value("1") == 1
  {
    assert "1"[..0] == "";
  }

  // ------------------------------------------------------- addresses read back

  /** A number in the usual notation. */
  function Text(v: nat, radix: Radix): (s: string)
    ensures s != []
  {
    if v < radix.Base() then [DigitChar(v)]
    else if radix == Decimal then Text(v / 10, radix) + [DigitChar(v % 10)]
    else Text(v / 16, radix) + [DigitChar(v % 16)]
  }

  lemma {:induction false} TextIsNumeral(v: nat, radix: Radix)
    ensures AllDigits(Text(v, radix), radix) && Numeral(Text(v, radix), radix) == v
  {
    if v < radix.Base() {
      OneMoreDigit([], v, radix);
      assert [] + [DigitChar(v)] == [DigitChar(v)];
    } else if radix == Decimal {
      TextIsNumeral(v / 10, radix);
      OneMoreDigit(Text(v / 10, radix), v % 10, radix);
    } else {
      TextIsNumeral(v / 16, radix);
      OneMoreDigit(Text(v / 16, radix), v % 16, radix);
    }
  }

  lemma OneMoreDigit(s: string, d: nat, radix: Radix)
    requires d < radix.Base() && AllDigits(s, radix)
    ensures AllDigits(s + [DigitChar(d)], radix) && Numeral(s + [DigitChar(d)], radix) == radix.Append(Numeral(s, radix), d)
  {
    assert (s + [DigitChar(d)])[..|s|] == s;
  }

  lemma {:induction false} DigitsOnly(s: string, radix: Radix, i: nat)
    requires AllDigits(s, radix) && i < |s|
    ensures DigitIn(s[i], radix).Some?
    decreases |s|
  {
    if i < |s| - 1 { DigitsOnly(s[..|s| - 1], radix, i); }
  }

  /** Digits are read as they are: no space, sign or prefix is seen in them. */
  lemma PlainNumber(s: string, radix: Radix)
    requires s != [] && AllDigits(s, radix)
    ensures StrToL(s, radix) == Some(Numeral(s, radix))
  {
    DigitsOnly(s, radix, 0);
    if |s| > 1 { DigitsOnly(s, radix, 1); }
    assert NumeralPart(s, radix) == s;
  }

  lemma OctetBack(v: byte, radix: Radix)
    ensures Octet(Text(v, radix), radix) == Some(v)
  {
    TextIsNumeral(v, radix);
    PlainNumber(Text(v, radix), radix);
  }

  lemma NoSeparatorInText(v: nat, radix: Radix, sep: char)
    requires DigitValue(sep).None?
    ensures sep !in Text(v, radix)
  {
    var s := Text(v, radix);
    TextIsNumeral(v, radix);
    forall i | 0 <= i < |s| ensures s[i] != sep {
      DigitsOnly(s, radix, i);
    }
  }

  /** The bytes in the usual notation, with separators between them. */
  function Written(vs: seq<byte>, radix: Radix, sep: char): string
  {
    if vs == [] then [] else if |vs| == 1 then Text(vs[0], radix)
    else Text(vs[0], radix) + ([sep] + Written(vs[1..], radix, sep))
  }

  lemma FirstOf(t: string, sep: char, rest: string)
    requires t != [] && sep !in t
    ensures NextToken(t + ([sep] + rest), sep) == Token(t, true, rest)
  {
    var s := t + ([sep] + rest);
    assert s[0] == t[0] && s[0] in t;
    assert s[0..] == s;
    RunStops(t, sep, rest);
    assert s[..|t|] == t && s[|t| + 1..] == rest;
  }

  lemma {:induction false} RunStops(t: string, sep: char, rest: string)
    requires sep !in t
    ensures Run(t + ([sep] + rest), sep) == |t|
    decreases |t|
  {
    var s := t + ([sep] + rest);
    if t != [] {
      assert s[0] == t[0] && t[0] in t && s[1..] == t[1..] + ([sep] + rest);
      RunStops(t[1..], sep, rest);
    }
  }

  lemma {:induction false} OctetsBack(f: Form, vs: seq<byte>, radix: Radix, sep: char, cut: bool)
    requires DigitValue(sep).None? && vs != []
    requires f.next == TokensBy(sep) && f.octet == OctetIn(radix)
    ensures Octets(f, Written(vs, radix, sep), |vs|, cut) == Parsed(vs, false)
    decreases |vs|
  {
    var t := Text(vs[0], radix);
    assert vs == [vs[0]] + vs[1..];
    OctetBack(vs[0], radix);
    NoSeparatorInText(vs[0], radix, sep);
    if |vs| == 1 {
      NoSeparatorTokens(t, sep);
      LastOctet(f, t, vs, cut);
    } else {
      var later := Written(vs[1..], radix, sep);
      FirstOf(t, sep, later);
      OctetsBack(f, vs[1..], radix, sep, true);
      NextOctetBack(f, Written(vs, radix, sep), t, later, vs, cut);
    }
  }

  lemma LastOctet(f: Form, t: string, vs: seq<byte>, cut: bool)
    requires |vs| == 1 && f.next(t) == Token(t, false, []) && f.octet(t) == Some(vs[0])
    ensures Octets(f, t, |vs|, cut) == Parsed(vs, false)
  {
    assert Octets(f, [], 0, false) == Parsed([], false);
  }

  lemma NextOctetBack(f: Form, s: string, t: string, later: string, vs: seq<byte>, cut: bool)
    requires vs != [] && f.next(s) == Token(t, true, later) && f.octet(t) == Some(vs[0])
    requires Octets(f, later, |vs[1..]|, true) == Parsed(vs[1..], false)
    ensures Octets(f, s, |vs|, cut) == Parsed(vs, false)
  {
    assert vs == [vs[0]] + vs[1..];
  }

  /** An IPv4 or MAC address in its usual notation gives its bytes back. */
  lemma AddressRoundTrip(vs: seq<byte>)
    ensures |vs| == 4 ==> Address(IPV4, Written(vs, Decimal, '.')) == Some(vs)
    ensures |vs| == 6 ==> Address(MAC, Written(vs, Hexadecimal, ':')) == Some(vs)
  {
    if |vs| == 4 {
      OctetsBack(IPV4, vs, Decimal, '.', false);
    } else if |vs| == 6 {
      OctetsBack(MAC, vs, Hexadecimal, ':', false);
    }
  }

  // -------------------------------------------------------- an address cut short

  lemma {:induction false} ZerosNumeral(k: nat)
    ensures AllDigits(Repeat('0', k), Decimal) && Numeral(Repeat('0', k), Decimal) == 0
  {
    if k > 0 {
      ZerosNumeral(k - 1);
      assert Repeat('0', k) == Repeat('0', k - 1) + [DigitChar(0)];
      OneMoreDigit(Repeat('0', k - 1), 0, Decimal);
    }
  }

  /** A first number with any zeros in front, then the others. */
  lemma PaddedAddress(k: nat, vs: seq<byte>, s: string)
    requires |vs| == 4 && vs[0] < 10
    requires s == Repeat('0', k) + [DigitChar(vs[0])] + (['.'] + Written(vs[1..], Decimal, '.'))
    ensures Address(IPV4, s) == Some(vs)
  {
    var t, later := Repeat('0', k) + [DigitChar(vs[0])], Written(vs[1..], Decimal, '.');
    ZerosNumeral(k);
    OneMoreDigit(Repeat('0', k), vs[0], Decimal);
    PlainNumber(t, Decimal);
    forall i | 0 <= i < |t| ensures t[i] != '.' { DigitsOnly(t, Decimal, i); }
    FirstOf(t, '.', later);
    OctetsBack(IPV4, vs[1..], Decimal, '.', true);
    NextOctetBack(IPV4, s, t, later, vs, false);
  }

  lemma WrittenCons(v: byte, vs: seq<byte>)
    requires vs != []
    ensures Written([v] + vs, Decimal, '.') == Text(v, Decimal) + (['.'] + Written(vs, Decimal, '.'))
  {
    assert ([v] + vs)[1..] == vs;
  }

  lemma LastThree(w: byte, text: string)
    requires Text(w, Decimal) == text
    ensures Written([2, 3, w], Decimal, '.') == "2.3." + text
  {
    assert Text(2, Decimal) == "2" && Text(3, Decimal) == "3";
    assert [3, w] == [3] + [w] && [2, 3, w] == [2] + [3, w];
    WrittenCons(3, [w]);
    WrittenCons(2, [3, w]);
    TwoAndThree(text);
  }

  lemma TwoAndThree(text: string)
    ensures "2" + (['.'] + ("3" + (['.'] + text))) == "2.3." + text
  {
  }

  lemma TextsOfFourAndFortyFive()
    ensures Text(4, Decimal) == "4" && Text(45, Decimal) == "45"
  {
    assert Text(45, Decimal) == Text(4, Decimal) + "5";
  }

  lemma FirstNumberApart(zeros: string, last: string)
    ensures zeros + ("1.2.3." + last) == zeros + ['1'] + (['.'] + ("2.3." + last))
  {
    assert "1.2.3." + last == ['1'] + (['.'] + ("2.3." + last));
  }

  lemma CutByOne(s: string, c: char)
    requires |s| == 127
    ensures Copied(s + [c]) == s
  {
  }

  /** 128 characters that are an address, read as the address their first 127 are. */
  lemma LongAddressIsCut(a: Attempts, ipv6: string -> Option<seq<byte>>)
    requires a == Standard(ipv6)
    ensures var text := Repeat('0', 120) + ("1.2.3." + "45");
      Address(IPV4, text) == Some([1, 2, 3, 45]) && FieldReading(text, 32, a) == Some([1, 2, 3, 4])
  {
    var zeros := Repeat('0', 120);
    TextsOfFourAndFortyFive();
    PaddedOneTwoThree(120, 45, "45");
    PaddedOneTwoThree(120, 4, "4");
    assert "1.2.3." + "45" == ("1.2.3." + "4") + ['5'];
    Regroup(zeros, "1.2.3." + "4", ['5']);
    CutByOne(zeros + ("1.2.3." + "4"), '5');
  }

  lemma PaddedOneTwoThree(k: nat, w: byte, last: string)
    requires Text(w, Decimal) == last
    ensures Address(IPV4, Repeat('0', k) + ("1.2.3." + last)) == Some([1, 2, 3, w])
  {
    LastThree(w, last);
    FirstNumberApart(Repeat('0', k), last);
    assert [1, 2, 3, w][1..] == [2, 3, w];
    PaddedAddress(k, [1, 2, 3, w], Repeat('0', k) + ("1.2.3." + last));
  }
}
