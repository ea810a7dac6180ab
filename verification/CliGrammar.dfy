/**
 Exactly which text the address parsers of CLI/utils.c accept, and as which bytes: what strtol
 reads, and how strtok_r takes an address apart.
 */
module CliGrammar {
  import opened Basics
  import opened Hex
  import opened CliParam

  // ---------------------------------------------------------------- numbers

  predicate AllSpaces(s: string) {
    s == [] || (IsSpace(s[0]) && AllSpaces(s[1..]))
  }

  /** A token spelled out: spaces, a sign, the prefix of hexadecimal numbers, digits. */
  ghost predicate SpelledOut(token: string, radix: Radix, spaces: string, sign: string, prefix: string, digits: string) {
    && token == spaces + (sign + (prefix + digits))
    && AllSpaces(spaces) && (sign == "" || sign == "+" || sign == "-")
    && (prefix == "" || (radix == Hexadecimal && (prefix == "0x" || prefix == "0X")))
    && digits != "" && AllDigits(digits, radix)
  }

  function Signed(sign: string, v: nat): int {
    if sign == "-" then 0 - v else v
  }

  lemma {:induction false} SpacesSkipped(spaces: string, rest: string)
    requires AllSpaces(spaces) && (rest == [] || !IsSpace(rest[0]))
    ensures SkipSpaces(spaces + rest) == rest
    decreases |spaces|
  {
    if spaces == [] {
      assert spaces + rest == rest;
    } else {
      assert (spaces + rest)[1..] == spaces[1..] + rest;
      SpacesSkipped(spaces[1..], rest);
    }
  }

  lemma {:induction false} SpacesInFront(s: string) returns (spaces: string)
    ensures AllSpaces(spaces) && s == spaces + SkipSpaces(s)
    ensures SkipSpaces(s) == [] || !IsSpace(SkipSpaces(s)[0])
  {
    if s == [] || !IsSpace(s[0]) {
      spaces := [];
      assert s == [] + s;
    } else {
      var more := SpacesInFront(s[1..]);
      spaces := [s[0]] + more;
      assert spaces[1..] == more;
      assert s == [s[0]] + s[1..];
      Regroup([s[0]], more, SkipSpaces(s));
    }
  }

  lemma DigitIsPlain(digits: string, radix: Radix)
    requires digits != "" && AllDigits(digits, radix)
    ensures DigitIn(digits[0], radix).Some? && !IsSpace(digits[0]) && digits[0] != '-' && digits[0] != '+'
    ensures NumeralPart(digits, radix) == digits
  {
    DigitsOnly(digits, radix, 0);
    if |digits| > 1 { DigitsOnly(digits, radix, 1); }
  }

  lemma PrefixTaken(prefix: string, digits: string, radix: Radix)
    requires digits != "" && AllDigits(digits, radix)
    requires prefix == "" || (radix == Hexadecimal && (prefix == "0x" || prefix == "0X"))
    ensures var t := prefix + digits;
      NumeralPart(t, radix) == digits && t != [] && !IsSpace(t[0]) && t[0] != '-' && t[0] != '+'
  {
    var t := prefix + digits;
    DigitIsPlain(digits, radix);
    if prefix == "" {
      assert t == digits;
    } else {
      assert t[0] == '0' && t[1] == prefix[1] && t[2] == digits[0] && t[2..] == digits;
    }
  }

  /** What is spelled out so is read. */
  lemma SpelledOutIsRead(token: string, radix: Radix, spaces: string, sign: string, prefix: string, digits: string)
    requires SpelledOut(token, radix, spaces, sign, prefix, digits)
    ensures StrToL(token, radix) == Some(Signed(sign, Numeral(digits, radix)))
  {
    PrefixTaken(prefix, digits, radix);
    SignTaken(sign, prefix + digits);
    SpacesSkipped(spaces, sign + (prefix + digits));
  }

  lemma SignTaken(sign: string, t: string)
    requires (sign == "" || sign == "+" || sign == "-") && t != [] && !IsSpace(t[0]) && t[0] != '-' && t[0] != '+'
    ensures var s := sign + t;
      && s != [] && !IsSpace(s[0]) && (s[0] == '-' <==> sign == "-")
      && (if s[0] == '-' || s[0] == '+' then s[1..] else s) == t
  {
    var s := sign + t;
    if sign == "" { assert s == t; } else { assert s[0] == sign[0] && s[1..] == t; }
  }

  /** What is read is spelled out so. */
  lemma ReadIsSpelledOut(token: string, radix: Radix) returns (spaces: string, sign: string, prefix: string, digits: string)
    requires StrToL(token, radix).Some?
    ensures SpelledOut(token, radix, spaces, sign, prefix, digits)
  {
    spaces := SpacesInFront(token);
    var t;
    sign, t := SignOff(SkipSpaces(token));
    prefix, digits := PrefixOff(t, radix);
  }

  lemma SignOff(s: string) returns (sign: string, t: string)
    ensures s == sign + t && (sign == "" || sign == "+" || sign == "-")
    ensures t == if s != [] && (s[0] == '-' || s[0] == '+') then s[1..] else s
  {
    if s != [] && (s[0] == '-' || s[0] == '+') {
      sign, t := [s[0]], s[1..];
    } else {
      sign, t := "", s;
    }
  }

  lemma PrefixOff(t: string, radix: Radix) returns (prefix: string, digits: string)
    ensures t == prefix + digits && digits == NumeralPart(t, radix)
    ensures prefix == "" || (radix == Hexadecimal && (prefix == "0x" || prefix == "0X"))
  {
    digits := NumeralPart(t, radix);
    prefix := if digits == t then "" else t[..2];
  }

  /** A token is read as v exactly if it is spelled out so. */
  lemma StrToLIff(token: string, radix: Radix, v: int)
    ensures StrToL(token, radix) == Some(v) <==>
      exists spaces, sign, prefix, digits :: SpelledOut(token, radix, spaces, sign, prefix, digits) && v == Signed(sign, Numeral(digits, radix))
  {
    if StrToL(token, radix) == Some(v) {
      var spaces, sign, prefix, digits := ReadIsSpelledOut(token, radix);
      SpelledOutIsRead(token, radix, spaces, sign, prefix, digits);
    }
    if spaces, sign, prefix, digits :| SpelledOut(token, radix, spaces, sign, prefix, digits) && v == Signed(sign, Numeral(digits, radix)) {
      SpelledOutIsRead(token, radix, spaces, sign, prefix, digits);
    }
  }

  /** Hexadecimal numerals have their usual value. */
  lemma {:induction false} HexNumeral(s: string)
    requires AllDigits(s, Hexadecimal)
    ensures IsHex(s) && Numeral(s, Hexadecimal) == Value(s)
  {
    if s != [] {
      HexNumeral(s[..|s| - 1]);
      var init, last := s[..|s| - 1], s[|s| - 1];
      assert s == init + [last];
    }
  }

  // -------------------------------------------------------------- addresses

  predicate AllSep(s: string, sep: char) {
    s == [] || (s[0] == sep && AllSep(s[1..], sep))
  }

  /** The parts of a text: separators, a token without any, and the rest, which is nothing or begins with one. */
  ghost predicate Parts(s: string, sep: char, gap: string, token: string, rest: string) {
    && s == gap + (token + rest) && AllSep(gap, sep) && token != "" && sep !in token
    && (rest == "" || rest[0] == sep)
  }

  lemma {:induction false} LeadOf(gap: string, rest: string, sep: char)
    requires AllSep(gap, sep) && (rest == "" || rest[0] != sep)
    ensures Lead(gap + rest, sep) == |gap|
    decreases |gap|
  {
    if gap == [] {
      assert gap + rest == rest;
    } else {
      assert (gap + rest)[1..] == gap[1..] + rest;
      LeadOf(gap[1..], rest, sep);
    }
  }

  lemma {:induction false} LeadIsSep(s: string, sep: char)
    ensures AllSep(s[..Lead(s, sep)], sep)
  {
    if s != [] && s[0] == sep {
      LeadIsSep(s[1..], sep);
      assert s[..Lead(s, sep)][1..] == s[1..][..Lead(s[1..], sep)];
    }
  }

  /** A call of strtok_r takes the first token; a separator behind it goes too. */
  lemma TokenOfParts(s: string, sep: char, gap: string, token: string, rest: string)
    requires Parts(s, sep, gap, token, rest)
    ensures NextToken(s, sep) == Token(token, rest != "", if rest == "" then "" else rest[1..])
  {
    FirstOfConcat(token, rest);
    assert token[0] in token;
    GapSkipped(gap, token + rest, sep);
    if rest == "" {
      NoMore(token);
      NoSeparatorTokens(token, sep);
    } else {
      assert rest == [sep] + rest[1..];
      FirstOf(token, sep, rest[1..]);
    }
  }

  lemma FirstOfConcat(a: string, b: string)
    requires a + b != ""
    ensures (a + b)[0] == if a == "" then b[0] else a[0]
  {
  }

  lemma GapSkipped(gap: string, t: string, sep: char)
    requires AllSep(gap, sep) && t != "" && t[0] != sep
    ensures NextToken(gap + t, sep) == NextToken(t, sep)
  {
    LeadOf(gap, t, sep);
    assert (gap + t)[|gap|..] == t && t[0..] == t;
  }

  lemma PartsOfToken(s: string, sep: char) returns (gap: string, token: string, rest: string)
    requires NextToken(s, sep).Token?
    ensures Parts(s, sep, gap, token, rest)
  {
    var n := Lead(s, sep);
    LeadIsSep(s, sep);
    gap := s[..n];
    token, rest := SplitRun(s[n..], sep);
    assert s == gap + s[n..];
  }

  lemma SplitRun(t: string, sep: char) returns (token: string, rest: string)
    requires t != "" && t[0] != sep
    ensures t == token + rest && token != "" && sep !in token && (rest == "" || rest[0] == sep)
  {
    var m := Run(t, sep);
    token, rest := t[..m], t[m..];
  }

  /** The parts of a text are its only ones. */
  lemma OnlyParts(s: string, sep: char, gap: string, token: string, rest: string, g: string, t: string, r: string)
    requires Parts(s, sep, gap, token, rest) && Parts(s, sep, g, t, r)
    ensures token == t && rest == r
  {
    TokenOfParts(s, sep, gap, token, rest);
    TokenOfParts(s, sep, g, t, r);
    SameRest(rest, r, sep);
  }

  lemma SameRest(a: string, b: string, sep: char)
    requires (a == "" || a[0] == sep) && (b == "" || b[0] == sep) && (a == "" <==> b == "")
    requires a != "" ==> a[1..] == b[1..]
    ensures a == b
  {
    if a != "" { assert a == [sep] + a[1..] && b == [sep] + b[1..]; }
  }

  /** The text begins with a token that is read as v, and goes on with rest. */
  ghost predicate Begins(s: string, v: byte, radix: Radix, sep: char, rest: string) {
    exists gap, token :: Parts(s, sep, gap, token, rest) && Octet(token, radix) == Some(v)
  }

  /** An address: as many tokens as bytes, each one of them, separators between and in front but none behind. */
  ghost predicate Dotted(s: string, vs: seq<byte>, radix: Radix, sep: char)
    decreases |vs|
  {
    if vs == [] then s == "" else exists rest :: Begins(s, vs[0], radix, sep, rest) && Dotted(rest, vs[1..], radix, sep)
  }

  /** A separator more in front makes no difference to tokens to come. */
  lemma OneSepMore(s: string, v: byte, radix: Radix, sep: char, rest: string)
    ensures Begins([sep] + s, v, radix, sep, rest) <==> Begins(s, v, radix, sep, rest)
  {
    if gap, token :| Parts(s, sep, gap, token, rest) && Octet(token, radix) == Some(v) {
      assert ([sep] + gap)[1..] == gap;
      Regroup([sep], gap, token + rest);
      assert Parts([sep] + s, sep, [sep] + gap, token, rest);
    }
    if gap, token :| Parts([sep] + s, sep, gap, token, rest) && Octet(token, radix) == Some(v) {
      GapDropped(s, sep, gap, token, rest);
    }
  }

  lemma GapDropped(s: string, sep: char, gap: string, token: string, rest: string)
    requires Parts([sep] + s, sep, gap, token, rest)
    ensures gap != "" && Parts(s, sep, gap[1..], token, rest)
  {
    var t := token + rest;
    assert token[0] in token;
    FirstOfConcat(token, rest);
    FirstOfConcat(gap, t);
    assert ([sep] + s)[0] == sep;
    assert s == ([sep] + s)[1..];
    assert (gap + t)[1..] == gap[1..] + t;
  }

  lemma DottedOneSepMore(s: string, vs: seq<byte>, radix: Radix, sep: char)
    requires vs != []
    ensures Dotted([sep] + s, vs, radix, sep) <==> Dotted(s, vs, radix, sep)
  {
    forall rest ensures Begins([sep] + s, vs[0], radix, sep, rest) <==> Begins(s, vs[0], radix, sep, rest) {
      OneSepMore(s, vs[0], radix, sep, rest);
    }
  }

  lemma OnePartition(s: string, vs: seq<byte>, radix: Radix, sep: char, gap: string, token: string, rest: string)
    requires vs != [] && Parts(s, sep, gap, token, rest)
    ensures Dotted(s, vs, radix, sep) <==> Octet(token, radix) == Some(vs[0]) && Dotted(rest, vs[1..], radix, sep)
  {
    if Octet(token, radix) == Some(vs[0]) { assert Begins(s, vs[0], radix, sep, rest); }
    forall r | Begins(s, vs[0], radix, sep, r) ensures r == rest && Octet(token, radix) == Some(vs[0]) {
      var g, t :| Parts(s, sep, g, t, r) && Octet(t, radix) == Some(vs[0]);
      OnlyParts(s, sep, gap, token, rest, g, t, r);
    }
  }

  lemma {:induction false} OctetsIff(f: Form, s: string, vs: seq<byte>, radix: Radix, sep: char, cut: bool)
    requires f.next == TokensBy(sep) && f.octet == OctetIn(radix) && vs != []
    ensures Octets(f, s, |vs|, cut) == Parsed(vs, false) <==> Dotted(s, vs, radix, sep)
    decreases |vs|, 0
  {
    if NextToken(s, sep).NoToken? {
      NothingBegins(s, vs[0], radix, sep);
    } else {
      var gap, token, rest := PartsOfToken(s, sep);
      TokenOfParts(s, sep, gap, token, rest);
      OnePartition(s, vs, radix, sep, gap, token, rest);
      if |vs| > 1 && rest != "" { SepTaken(f, rest, vs[1..], radix, sep); }
      if |vs| > 1 && rest == "" { OctetsIff(f, rest, vs[1..], radix, sep, false); }
      OctetsOfToken(f, s, vs, token, if rest == "" then "" else rest[1..], rest != "", cut);
    }
  }

  lemma NothingBegins(s: string, v: byte, radix: Radix, sep: char)
    requires NextToken(s, sep).NoToken?
    ensures forall rest :: !Begins(s, v, radix, sep, rest)
  {
    forall rest ensures !Begins(s, v, radix, sep, rest) {
      if gap, token :| Parts(s, sep, gap, token, rest) && Octet(token, radix) == Some(v) {
        TokenOfParts(s, sep, gap, token, rest);
      }
    }
  }

  lemma SepTaken(f: Form, rest: string, vs: seq<byte>, radix: Radix, sep: char)
    requires f.next == TokensBy(sep) && f.octet == OctetIn(radix) && vs != [] && rest != "" && rest[0] == sep
    ensures Octets(f, rest[1..], |vs|, true) == Parsed(vs, false) <==> Dotted(rest, vs, radix, sep)
    decreases |vs|, 1
  {
    OctetsIff(f, rest[1..], vs, radix, sep, true);
    assert rest == [sep] + rest[1..];
    DottedOneSepMore(rest[1..], vs, radix, sep);
  }

  /** One step of the loop. */
  lemma OctetsOfToken(f: Form, s: string, vs: seq<byte>, token: string, rest: string, c: bool, cut: bool)
    requires vs != [] && f.next(s) == Token(token, c, rest)
    ensures Octets(f, s, |vs|, cut) == Parsed(vs, false) <==>
            f.octet(token) == Some(vs[0]) && Octets(f, rest, |vs| - 1, c) == Parsed(vs[1..], false)
  {
    assert vs == [vs[0]] + vs[1..];
    var later := Octets(f, rest, |vs| - 1, c);
    if f.octet(token).Some? && later.Parsed? {
      assert ([f.octet(token).value] + later.octets)[1..] == later.octets;
    }
  }

  /** Exactly this text is an IPv4 or a MAC address, and of these bytes. */
  lemma AddressIff(s: string, vs: seq<byte>)
    ensures |vs| == 4 ==> (Address(IPV4, s) == Some(vs) <==> Dotted(s, vs, Decimal, '.'))
    ensures |vs| == 6 ==> (Address(MAC, s) == Some(vs) <==> Dotted(s, vs, Hexadecimal, ':'))
  {
    if |vs| == 4 { OctetsIff(IPV4, s, vs, Decimal, '.', false); }
    if |vs| == 6 { OctetsIff(MAC, s, vs, Hexadecimal, ':', false); }
  }
}
