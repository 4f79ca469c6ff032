/** The codec of base64.hpp: sections 3.5 and 4 of RFC 4648, with padding. */
module Base64 {

  const CHARS := "ABCDEFGHIJKLMNOPQRSTUVWXYZ" + "abcdefghijklmnopqrstuvwxyz" + "0123456789+/"

  predicate IsBase64(c: char) {
    'A' <= c <= 'Z' || 'a' <= c <= 'z' || '0' <= c <= '9' || c == '+' || c == '/'
  }

  /** std::string::find, |s| standing for npos. */
  function Find(s: string, c: char): (i: nat)
    ensures i <= |s| && (i < |s| ==> s[i] == c)
    ensures forall j :: 0 <= j < i ==> s[j] != c
  {
    if s == "" || s[0] == c then 0 else 1 + Find(s[1..], c)
  }

  function Symbol(v: bv8): char
    requires v < 64
  {
    CHARS[v as int]
  }

  /** static_cast<unsigned char>(chars.find(c)): npos becomes 255. */
  function Value(c: char): bv8 {
    var i := Find(CHARS, c);
    if i < 64 then i as bv8 else 255
  }

  // ----- Groups ---------------------------------------------------------------------

  /** The four six-bit values of three bytes. */
  function Sextet(a: bv8, b: bv8, c: bv8, i: nat): (v: bv8)
    requires i < 4
    ensures v < 64
  {
    if i == 0 then (a & 0xfc) >> 2
    else if i == 1 then ((a & 0x03) << 4) + ((b & 0xf0) >> 4)
    else if i == 2 then ((b & 0x0f) << 2) + ((c & 0xc0) >> 6)
    else c & 0x3f
  }

  /** The three bytes of four six-bit values. */
  function Octet(p: bv8, q: bv8, r: bv8, s: bv8, i: nat): bv8
    requires i < 3
  {
    if i == 0 then (p << 2) + ((q & 0x30) >> 4)
    else if i == 1 then ((q & 0xf) << 4) + ((r & 0x3c) >> 2)
    else ((r & 0x3) << 6) + s
  }

  lemma OctetsOfSextets(a: bv8, b: bv8, c: bv8)
    ensures var p, q, r, s := Sextet(a, b, c, 0), Sextet(a, b, c, 1), Sextet(a, b, c, 2), Sextet(a, b, c, 3);
            Octet(p, q, r, s, 0) == a && Octet(p, q, r, s, 1) == b && Octet(p, q, r, s, 2) == c
  {}

  lemma SextetsOfOctets(p: bv8, q: bv8, r: bv8, s: bv8)
    requires p < 64 && q < 64 && r < 64 && s < 64
    ensures var a, b, c := Octet(p, q, r, s, 0), Octet(p, q, r, s, 1), Octet(p, q, r, s, 2);
            Sextet(a, b, c, 0) == p && Sextet(a, b, c, 1) == q && Sextet(a, b, c, 2) == r && Sextet(a, b, c, 3) == s
  {}

  // ----- Specification -----------------------------------------------------------------

  /** Section 4: the 24 bits of three octets are those of the four sextets, in order. */
  lemma GroupIsTheSameBits(a: bv8, b: bv8, c: bv8)
    ensures ((a as bv24) << 16) | ((b as bv24) << 8) | (c as bv24)
         == ((Sextet(a, b, c, 0) as bv24) << 18) | ((Sextet(a, b, c, 1) as bv24) << 12)
            | ((Sextet(a, b, c, 2) as bv24) << 6) | (Sextet(a, b, c, 3) as bv24)
  {
  }

  function Symbols(a: bv8, b: bv8, c: bv8): (s: string)
    ensures |s| == 4
  {
    [Symbol(Sextet(a, b, c, 0)), Symbol(Sextet(a, b, c, 1)), Symbol(Sextet(a, b, c, 2)), Symbol(Sextet(a, b, c, 3))]
  }

  function Encoded(bytes: seq<bv8>): string {
    if |bytes| == 0 then ""
    else if |bytes| == 1 then Symbols(bytes[0], 0, 0)[..2] + "=="
    else if |bytes| == 2 then Symbols(bytes[0], bytes[1], 0)[..3] + "="
    else Symbols(bytes[0], bytes[1], bytes[2]) + Encoded(bytes[3..])
  }

  function Octets(p: char, q: char, r: char, s: char): (b: seq<bv8>)
    ensures |b| == 3
  {
    var a, b, c, d := Value(p), Value(q), Value(r), Value(s);
    [Octet(a, b, c, d, 0), Octet(a, b, c, d, 1), Octet(a, b, c, d, 2)]
  }

  /** The symbols in front of the first character that is none. */
  function Body(s: string): (t: string)
    ensures t <= s && forall i :: 0 <= i < |t| ==> IsBase64(t[i])
  {
    if s == "" || !IsBase64(s[0]) then "" else [s[0]] + Body(s[1..])
  }

  function DecodedBody(t: string): seq<bv8> {
    if |t| <= 1 then []
    else if |t| == 2 then Octets(t[0], t[1], '\0', '\0')[..1]
    else if |t| == 3 then Octets(t[0], t[1], t[2], '\0')[..2]
    else Octets(t[0], t[1], t[2], t[3]) + DecodedBody(t[4..])
  }

  function Decoded(s: string): seq<bv8> {
    DecodedBody(Body(s))
  }

  // ----- Bit by bit ------------------------------------------------------------------------

  /** The value of the i-th symbol, or 0 behind the last one. */
  function ValueAt(t: string, i: nat): bv8 {
    if i < |t| then Value(t[i]) else 0
  }

  /** The 24 bits of four values of six bits. */
  function Group(p: bv8, q: bv8, r: bv8, s: bv8): bv24 {
    ((p as bv24) << 18) | ((q as bv24) << 12) | ((r as bv24) << 6) | (s as bv24)
  }

  /** The 24 bits of the g-th group of four symbols. */
  function Bits(t: string, g: nat): bv24 {
    Group(ValueAt(t, 4 * g), ValueAt(t, 4 * g + 1), ValueAt(t, 4 * g + 2), ValueAt(t, 4 * g + 3))
  }

  function Byte(bits: bv24, k: nat): bv24
    requires k < 3
  {
    if k == 0 then bits >> 16 else if k == 1 then (bits >> 8) & 0xff else bits & 0xff
  }

  lemma OctetsAreBytes(p: bv8, q: bv8, r: bv8, s: bv8)
    requires p < 64 && q < 64 && r < 64 && s < 64
    ensures var bits := Group(p, q, r, s);
            && Octet(p, q, r, s, 0) as bv24 == Byte(bits, 0)
            && Octet(p, q, r, s, 1) as bv24 == Byte(bits, 1)
            && Octet(p, q, r, s, 2) as bv24 == Byte(bits, 2)
  {}

  /** The symbols behind those that hold a byte do not matter to it. */
  lemma ShortOctets(p: bv8, q: bv8, r: bv8, x: bv8, y: bv8)
    ensures Octet(p, q, x, y, 0) == Octet(p, q, 0, 0, 0)
    ensures Octet(p, q, r, y, 0) == Octet(p, q, r, 0, 0) && Octet(p, q, r, y, 1) == Octet(p, q, r, 0, 1)
  {}

  /** Any text of symbols decodes to the whole bytes among its bits, in order; bits behind the last
      whole byte are dropped, whatever they are. */
  lemma {:induction false} DecodedExact(t: string)
    requires forall i :: 0 <= i < |t| ==> IsBase64(t[i])
    ensures |DecodedBody(t)| == |t| * 6 / 8
    ensures forall j :: 0 <= j < |DecodedBody(t)| ==> DecodedBody(t)[j] as bv24 == Byte(Bits(t, j / 3), j % 3)
  {
    hide Value, Octet, IsBase64, Byte, Bits;
    if |t| <= 1 {
    } else {
      FirstGroup(t);
      if |t| >= 4 {
        var rest := t[4..];
        DecodedExact(rest);
        assert DecodedBody(t) == Octets(t[0], t[1], t[2], t[3]) + DecodedBody(rest);
        hide DecodedBody, Octets;
        forall j | 3 <= j < |DecodedBody(t)|
          ensures DecodedBody(t)[j] as bv24 == Byte(Bits(t, j / 3), j % 3)
        {
          assert DecodedBody(t)[j] == DecodedBody(rest)[j - 3];
          assert j / 3 - 1 == (j - 3) / 3 && (j - 3) % 3 == j % 3;
          NextGroup(t, (j - 3) / 3);
        }
      }
    }
  }

  lemma NextGroup(t: string, g: nat)
    requires |t| >= 4
    ensures Bits(t, g + 1) == Bits(t[4..], g)
  {
    hide Value, Group;
  }

  lemma ValueFits(t: string, i: nat)
    requires forall i :: 0 <= i < |t| ==> IsBase64(t[i])
    ensures ValueAt(t, i) < 64
  {
    hide Value, IsBase64;
    if i < |t| {
      SymbolOfValue(t[i]);
    }
  }

  lemma FirstOctets(t: string)
    requires |t| >= 2
    ensures forall j :: 0 <= j < 3 && j < |DecodedBody(t)| ==>
              DecodedBody(t)[j] == Octet(ValueAt(t, 0), ValueAt(t, 1), ValueAt(t, 2), ValueAt(t, 3), j)
  {
    hide Value, Octet;
    ShortOctets(ValueAt(t, 0), ValueAt(t, 1), ValueAt(t, 2), Value('\0'), Value('\0'));
  }

  lemma FirstGroup(t: string)
    requires |t| >= 2 && forall i :: 0 <= i < |t| ==> IsBase64(t[i])
    ensures forall j :: 0 <= j < 3 && j < |DecodedBody(t)| ==> DecodedBody(t)[j] as bv24 == Byte(Bits(t, 0), j)
  {
    hide Value, Octet, IsBase64, Byte, Group, ValueAt, DecodedBody;
    ValueFits(t, 0);
    ValueFits(t, 1);
    ValueFits(t, 2);
    ValueFits(t, 3);
    FirstOctets(t);
    OctetsAreBytes(ValueAt(t, 0), ValueAt(t, 1), ValueAt(t, 2), ValueAt(t, 3));
  }

  /** The text that decode looks at ends at the first character that is no symbol. */
  lemma {:induction false} BodyStops(s: string)
    ensures |Body(s)| < |s| ==> !IsBase64(s[|Body(s)|])
  {
    if s == "" || !IsBase64(s[0]) {
    } else {
      BodyStops(s[1..]);
    }
  }

  // ----- The alphabet --------------------------------------------------------------------

  function Letter(i: nat): char
    requires i < 64
  {
    if i < 26 then 'A' + i as char
    else if i < 52 then 'a' + (i - 26) as char
    else if i < 62 then '0' + (i - 52) as char
    else if i == 62 then '+' else '/'
  }

  lemma CharsAt(i: nat)
    requires i < 64
    ensures |CHARS| == 64 && CHARS[i] == Letter(i)
  {}

  /** The place of a symbol in the alphabet. */
  function Place(c: char): (i: nat)
    requires IsBase64(c)
    ensures i < 64 && Letter(i) == c
  {
    if 'A' <= c <= 'Z' then (c - 'A') as int
    else if 'a' <= c <= 'z' then (c - 'a') as int + 26
    else if '0' <= c <= '9' then (c - '0') as int + 52
    else if c == '+' then 62 else 63
  }

  lemma LettersDiffer(i: nat, j: nat)
    requires i < 64 && j < 64 && Letter(i) == Letter(j)
    ensures i == j && IsBase64(Letter(i))
  {}

  lemma FindLetter(i: nat)
    requires i < 64
    ensures Find(CHARS, Letter(i)) == i && IsBase64(Letter(i))
  {
    hide CHARS, Find, Letter, IsBase64;
    CharsAt(i);
    var j := Find(CHARS, Letter(i));
    assert j <= i;
    CharsAt(j);
    LettersDiffer(i, j);
  }

  lemma ValueOfSymbol(v: bv8)
    requires v < 64
    ensures IsBase64(Symbol(v)) && Value(Symbol(v)) == v
  {
    hide CHARS, Find, Letter, IsBase64;
    var i := v as int;
    CharsAt(i);
    FindLetter(i);
  }

  lemma SymbolOfValue(c: char)
    requires IsBase64(c)
    ensures Value(c) < 64 && Symbol(Value(c)) == c
  {
    hide CHARS, Find, Letter, IsBase64, Place;
    var i := Place(c);
    CharsAt(i);
    FindLetter(i);
  }

  // ----- Round trips ------------------------------------------------------------------------

  lemma {:induction false} BodyOfSymbols(s: string, rest: string)
    requires forall i :: 0 <= i < |s| ==> IsBase64(s[i])
    ensures Body(s + rest) == s + Body(rest)
  {
    if s == "" {
      assert s + rest == rest;
    } else {
      assert (s + rest)[1..] == s[1..] + rest;
      BodyOfSymbols(s[1..], rest);
    }
  }

  lemma EqualsIsNoSymbol()
    ensures !IsBase64('=') && Body("=") == "" && Body("==") == ""
  {}

  lemma SymbolsAreSymbols(a: bv8, b: bv8, c: bv8)
    ensures forall i :: 0 <= i < 4 ==> IsBase64(Symbols(a, b, c)[i]) && Value(Symbols(a, b, c)[i]) == Sextet(a, b, c, i)
  {
    ValueOfSymbol(Sextet(a, b, c, 0));
    ValueOfSymbol(Sextet(a, b, c, 1));
    ValueOfSymbol(Sextet(a, b, c, 2));
    ValueOfSymbol(Sextet(a, b, c, 3));
  }

  /** The first bytes of a group do not depend on the symbols behind those that hold them. */
  lemma ShortGroups(a: bv8, b: bv8, x: bv8, y: bv8)
    ensures Octet(Sextet(a, 0, 0, 0), Sextet(a, 0, 0, 1), x, y, 0) == a
    ensures Octet(Sextet(a, b, 0, 0), Sextet(a, b, 0, 1), Sextet(a, b, 0, 2), y, 0) == a
    ensures Octet(Sextet(a, b, 0, 0), Sextet(a, b, 0, 1), Sextet(a, b, 0, 2), y, 1) == b
  {}

  /** What is encoded decodes to itself, for all byte strings. */
  lemma {:induction false} DecodeEncode(bytes: seq<bv8>)
    ensures Decoded(Encoded(bytes)) == bytes
  {
    hide Symbol, Value, Sextet, Octet, IsBase64;
    EqualsIsNoSymbol();
    if |bytes| == 0 {
    } else if |bytes| == 1 {
      var s := Symbols(bytes[0], 0, 0);
      SymbolsAreSymbols(bytes[0], 0, 0);
      BodyOfSymbols(s[..2], "==");
      ShortGroups(bytes[0], 0, Value('\0'), Value('\0'));
    } else if |bytes| == 2 {
      var s := Symbols(bytes[0], bytes[1], 0);
      SymbolsAreSymbols(bytes[0], bytes[1], 0);
      BodyOfSymbols(s[..3], "=");
      ShortGroups(bytes[0], bytes[1], Value('\0'), Value('\0'));
    } else {
      var s := Symbols(bytes[0], bytes[1], bytes[2]);
      SymbolsAreSymbols(bytes[0], bytes[1], bytes[2]);
      BodyOfSymbols(s, Encoded(bytes[3..]));
      var t := s + Body(Encoded(bytes[3..]));
      assert t[4..] == Body(Encoded(bytes[3..]));
      OctetsOfSextets(bytes[0], bytes[1], bytes[2]);
      DecodeEncode(bytes[3..]);
      assert bytes == bytes[..3] + bytes[3..];
    }
  }

  lemma {:induction false} EncodedLength(bytes: seq<bv8>)
    ensures |Encoded(bytes)| == 4 * ((|bytes| + 2) / 3)
  {
    if |bytes| < 3 {
    } else {
      EncodedLength(bytes[3..]);
    }
  }

  /** Section 3.5 of RFC 4648: whole groups, the last one padded, with no bits set behind
      those of the last byte. */
  predicate Canonical(s: string) {
    var t := Body(s);
    if |t| % 4 == 0 then s == t
    else if |t| % 4 == 2 then s == t + "==" && Value(t[|t| - 1]) & 0xf == 0
    else if |t| % 4 == 3 then s == t + "=" && Value(t[|t| - 1]) & 0x3 == 0
    else false
  }

  lemma NoStrayBits(a: bv8, b: bv8)
    ensures Sextet(a, 0, 0, 1) & 0xf == 0 && Sextet(a, b, 0, 2) & 0x3 == 0
  {}

  lemma {:induction false} EncodedIsCanonical(bytes: seq<bv8>)
    ensures Canonical(Encoded(bytes))
  {
    hide Symbol, Value, Sextet, IsBase64;
    EqualsIsNoSymbol();
    NoStrayBits(if |bytes| > 0 then bytes[0] else 0, if |bytes| > 1 then bytes[1] else 0);
    if |bytes| == 0 {
    } else if |bytes| == 1 {
      SymbolsAreSymbols(bytes[0], 0, 0);
      BodyOfSymbols(Symbols(bytes[0], 0, 0)[..2], "==");
    } else if |bytes| == 2 {
      SymbolsAreSymbols(bytes[0], bytes[1], 0);
      BodyOfSymbols(Symbols(bytes[0], bytes[1], 0)[..3], "=");
    } else {
      var s := Symbols(bytes[0], bytes[1], bytes[2]);
      var rest := Encoded(bytes[3..]);
      SymbolsAreSymbols(bytes[0], bytes[1], bytes[2]);
      BodyOfSymbols(s, rest);
      EncodedIsCanonical(bytes[3..]);
      CanonicalAfterGroup(s, rest);
    }
  }

  lemma SameTail(s: string, x: string, y: string)
    ensures s + x == s + y <==> x == y
  {
    assert (s + x)[|s|..] == x && (s + y)[|s|..] == y;
  }

  lemma CanonicalAfterGroup(s: string, rest: string)
    requires |s| == 4 && Body(s + rest) == s + Body(rest)
    ensures Canonical(s + rest) <==> Canonical(rest)
  {
    hide Value, Body;
    var t := Body(rest);
    assert |s + t| % 4 == |t| % 4;
    assert s + t + "==" == s + (t + "==") && s + t + "=" == s + (t + "=");
    SameTail(s, rest, t);
    SameTail(s, rest, t + "==");
    SameTail(s, rest, t + "=");
    if t != "" {
      assert (s + t)[|s + t| - 1] == t[|t| - 1];
    }
  }

  lemma ShortGroupsBack(p: bv8, q: bv8, r: bv8, x: bv8, y: bv8)
    requires p < 64 && q < 64 && r < 64
    ensures q & 0xf == 0 ==> var a := Octet(p, q, x, y, 0); Sextet(a, 0, 0, 0) == p && Sextet(a, 0, 0, 1) == q
    ensures r & 0x3 == 0 ==> var a, b := Octet(p, q, r, y, 0), Octet(p, q, r, y, 1);
                             Sextet(a, b, 0, 0) == p && Sextet(a, b, 0, 1) == q && Sextet(a, b, 0, 2) == r
  {}

  /** One whole group back and forth. */
  lemma GroupBack(t: string)
    requires |t| == 4 && forall i :: 0 <= i < 4 ==> IsBase64(t[i])
    ensures var o := Octets(t[0], t[1], t[2], t[3]); Symbols(o[0], o[1], o[2]) == t
  {
    hide Symbol, Value, Sextet, Octet, IsBase64;
    SymbolOfValue(t[0]);
    SymbolOfValue(t[1]);
    SymbolOfValue(t[2]);
    SymbolOfValue(t[3]);
    SextetsOfOctets(Value(t[0]), Value(t[1]), Value(t[2]), Value(t[3]));
  }

  lemma ShortBack(t: string)
    requires 2 <= |t| <= 3 && forall i :: 0 <= i < |t| ==> IsBase64(t[i])
    requires if |t| == 2 then Value(t[1]) & 0xf == 0 else Value(t[2]) & 0x3 == 0
    ensures Encoded(DecodedBody(t)) == t + if |t| == 2 then "==" else "="
  {
    hide Symbol, Value, Sextet, Octet, IsBase64;
    SymbolOfValue(t[0]);
    SymbolOfValue(t[1]);
    if |t| == 2 {
      ShortGroupsBack(Value(t[0]), Value(t[1]), 0, Value('\0'), Value('\0'));
    } else {
      SymbolOfValue(t[2]);
      ShortGroupsBack(Value(t[0]), Value(t[1]), Value(t[2]), 0, Value('\0'));
    }
  }

  lemma {:induction false} EncodeDecodeCanonical(s: string)
    requires Canonical(s)
    ensures Encoded(Decoded(s)) == s
    decreases |s|
  {
    hide Symbols, Octets, Value, IsBase64;
    var t := Body(s);
    if |t| == 0 {
    } else if |t| <= 3 {
      ShortBack(t);
    } else {
      var group, rest := s[..4], s[4..];
      GroupBack(group);
      assert s == group + rest;
      BodyOfSymbols(group, rest);
      assert t[4..] == Body(rest);
      CanonicalAfterGroup(group, rest);
      EncodeDecodeCanonical(rest);
      var o := Octets(s[0], s[1], s[2], s[3]);
      assert Decoded(s) == o + Decoded(rest);
      assert (o + Decoded(rest))[3..] == Decoded(rest);
    }
  }

  /** Decoding and encoding again gives the text back exactly when it is canonical. */
  lemma EncodeDecodeExact(s: string)
    ensures Encoded(Decoded(s)) == s <==> Canonical(s)
  {
    EncodedIsCanonical(Decoded(s));
    if Canonical(s) {
      EncodeDecodeCanonical(s);
    }
  }

  // ----- The loops -----------------------------------------------------------------------------

  lemma {:induction false} EncodedSplit(a: seq<bv8>, b: seq<bv8>)
    requires |a| % 3 == 0
    ensures Encoded(a + b) == Encoded(a) + Encoded(b)
  {
    hide Symbols;
    if a == [] {
      assert a + b == b;
    } else {
      EncodedSplit(a[3..], b);
      assert (a + b)[3..] == a[3..] + b;
      assert Encoded(a + b) == Symbols(a[0], a[1], a[2]) + (Encoded(a[3..]) + Encoded(b));
    }
  }

  lemma {:induction false} DecodedSplit(a: string, b: string)
    requires |a| % 4 == 0
    ensures DecodedBody(a + b) == DecodedBody(a) + DecodedBody(b)
  {
    hide Octets;
    if a == "" {
      assert a + b == b;
    } else {
      DecodedSplit(a[4..], b);
      assert (a + b)[4..] == a[4..] + b;
      assert DecodedBody(a + b) == Octets(a[0], a[1], a[2], a[3]) + (DecodedBody(a[4..]) + DecodedBody(b));
    }
  }

  /** Filling char_array_4 with the six-bit values of char_array_3. */
  method FillSextets(three: array<bv8>, four: array<bv8>)
    requires three.Length == 3 && four.Length == 4 && three != four
    modifies four
    ensures forall j :: 0 <= j < 4 ==> four[j] == Sextet(three[0], three[1], three[2], j)
  {
    four[0] := (three[0] & 0xfc) >> 2;
    four[1] := ((three[0] & 0x03) << 4) + ((three[1] & 0xf0) >> 4);
    four[2] := ((three[1] & 0x0f) << 2) + ((three[2] & 0xc0) >> 6);
    four[3] := three[2] & 0x3f;
  }

  /** The loop that appends the first n symbols of a group. */
  method AppendSymbols(ret: string, three: array<bv8>, four: array<bv8>, n: nat) returns (r: string)
    requires three.Length == 3 && four.Length == 4 && n <= 4 && three != four
    modifies four
    ensures r == ret + Symbols(three[0], three[1], three[2])[..n]
  {
    hide Sextet, CHARS, Symbol;
    FillSextets(three, four);
    ghost var symbols := Symbols(three[0], three[1], three[2]);
    r := ret;
    for j := 0 to n
      invariant r == ret + symbols[..j]
    {
      assert four[j] == Sextet(three[0], three[1], three[2], j);
      assert symbols[j] == Symbol(Sextet(three[0], three[1], three[2], j));
      r := r + [Symbol(four[j])];
      assert symbols[..j + 1] == symbols[..j] + [symbols[j]];
    }
  }

  lemma EncodedGroup(bytes: seq<bv8>, n: nat)
    requires 3 <= n <= |bytes| && n % 3 == 0
    ensures Encoded(bytes[..n]) == Encoded(bytes[..n - 3]) + Symbols(bytes[n - 3], bytes[n - 2], bytes[n - 1])
  {
    hide Symbols;
    var group := bytes[n - 3..n];
    assert bytes[..n] == bytes[..n - 3] + group;
    EncodedSplit(bytes[..n - 3], group);
    assert Encoded(group) == Symbols(group[0], group[1], group[2]) + "";
  }

  /** The end of encode: i bytes are left over in char_array_3. */
  method EncodeRest(ret: string, three: array<bv8>, four: array<bv8>, i: nat) returns (r: string)
    requires three.Length == 3 && four.Length == 4 && three != four && 0 < i < 3
    modifies three, four
    ensures r == ret + Encoded(old(three[..i]))
  {
    ghost var left := three[..i];
    for j := i to 3
      invariant three[..i] == left
      invariant forall m :: i <= m < j ==> three[m] == 0
    {
      three[j] := 0;
    }
    assert three[0] == left[0] && (i == 2 ==> three[1] == left[1]);
    r := AppendSymbols(ret, three, four, i + 1);
    var k, symbols := i, r;
    while k < 3
      invariant i <= k <= 3
      invariant r == symbols + (if k - i == 0 then "" else if k - i == 1 then "=" else "==")
    {
      r := r + "=";
      k := k + 1;
    }
  }

  /** encode. */
  method Encode(bytes: seq<bv8>) returns (ret: string)
    ensures ret == Encoded(bytes)
  {
    hide Encoded, Symbols;
    ret := "";
    assert Encoded([]) == "" by {
      EncodedLength([]);
    }
    assert bytes[..0] == [];
    var three, four := new bv8[3], new bv8[4];
    var i := 0;
    for n := 0 to |bytes|
      invariant 0 <= i < 3 && i <= n && (n - i) % 3 == 0
      invariant forall m :: 0 <= m < i ==> three[m] == bytes[n - i + m]
      invariant ret == Encoded(bytes[..n - i])
    {
      three[i] := bytes[n];
      i := i + 1;
      if i == 3 {
        ret := AppendSymbols(ret, three, four, 4);
        EncodedGroup(bytes, n + 1);
        i := 0;
      }
    }
    var whole := |bytes| - i;
    assert bytes == bytes[..whole] + bytes[whole..];
    EncodedSplit(bytes[..whole], bytes[whole..]);
    assert three[..i] == bytes[whole..];
    if i > 0 {
      ret := EncodeRest(ret, three, four, i);
    }
  }

  /** Filling char_array_3 with the bytes of the six-bit values in char_array_4. */
  method FillOctets(values: array<bv8>) returns (three: array<bv8>)
    requires values.Length == 4
    ensures fresh(three) && three.Length == 3
    ensures forall j :: 0 <= j < 3 ==> three[j] == Octet(values[0], values[1], values[2], values[3], j)
  {
    three := new bv8[3];
    three[0] := (values[0] << 2) + ((values[1] & 0x30) >> 4);
    three[1] := ((values[1] & 0xf) << 4) + ((values[2] & 0x3c) >> 2);
    three[2] := ((values[2] & 0x3) << 6) + values[3];
  }

  /** The replacement of the symbols in char_array_4 by their values, and the first n bytes. */
  method AppendOctets(ret: seq<bv8>, four: array<char>, n: nat) returns (r: seq<bv8>)
    requires four.Length == 4 && n <= 3
    ensures r == ret + Octets(four[0], four[1], four[2], four[3])[..n]
  {
    hide Value, Octet;
    var values := new bv8[4];
    for j := 0 to 4
      invariant forall m :: 0 <= m < j ==> values[m] == Value(four[m])
    {
      values[j] := Value(four[j]);
    }
    var three := FillOctets(values);
    ghost var octets := Octets(four[0], four[1], four[2], four[3]);
    assert three[..] == octets;
    r := ret;
    for j := 0 to n
      invariant r == ret + octets[..j]
    {
      r := r + [three[j]];
      assert octets[..j + 1] == octets[..j] + [octets[j]];
    }
  }

  lemma DecodedGroup(s: string, n: nat)
    requires 4 <= n <= |s| && n % 4 == 0
    ensures DecodedBody(s[..n]) == DecodedBody(s[..n - 4]) + Octets(s[n - 4], s[n - 3], s[n - 2], s[n - 1])
  {
    hide Octets;
    var group := s[n - 4..n];
    assert s[..n] == s[..n - 4] + group;
    DecodedSplit(s[..n - 4], group);
    assert DecodedBody(group) == Octets(group[0], group[1], group[2], group[3]) + [];
  }

  /** Where the loop of decode stops. */
  lemma BodyIs(s: string, n: nat)
    requires n <= |s| && (forall m :: 0 <= m < n ==> IsBase64(s[m])) && (n < |s| ==> !IsBase64(s[n]))
    ensures Body(s) == s[..n]
  {
    hide IsBase64;
    assert Body(s[n..]) == "";
    hide Body;
    var t := s[..n];
    BodyOfSymbols(t, s[n..]);
    assert s == t + s[n..] && t + "" == t;
  }

  /** The end of decode: i symbols are left over in char_array_4. */
  method DecodeRest(ret: seq<bv8>, four: array<char>, i: nat) returns (r: seq<bv8>)
    requires four.Length == 4 && 0 < i < 4
    modifies four
    ensures r == ret + DecodedBody(old(four[..i]))
  {
    hide Octets;
    ghost var left := four[..i];
    for j := i to 4
      invariant four[..i] == left
      invariant forall m :: i <= m < j ==> four[m] == '\0'
    {
      four[j] := '\0';
    }
    assert forall m :: 0 <= m < i ==> four[m] == left[m];
    r := AppendOctets(ret, four, i - 1);
  }

  /** decode. */
  method Decode(s: string) returns (ret: seq<bv8>)
    ensures ret == Decoded(s)
  {
    hide Body, DecodedBody, Octets, IsBase64;
    EqualsIsNoSymbol();
    NothingDecoded(s);
    ret := [];
    var four := new char[4];
    var i, n := 0, 0;
    while n < |s| && s[n] != '=' && IsBase64(s[n])
      invariant 0 <= i < 4 && i <= n <= |s| && (n - i) % 4 == 0
      invariant forall m :: 0 <= m < n ==> IsBase64(s[m])
      invariant forall m :: 0 <= m < i ==> four[m] == s[n - i + m]
      invariant ret == DecodedBody(s[..n - i])
    {
      four[i] := s[n];
      i, n := i + 1, n + 1;
      if i == 4 {
        ret := AppendOctets(ret, four, 3);
        DecodedGroup(s, n);
        i := 0;
      }
    }
    BodyIs(s, n);
    var whole := n - i;
    assert s[..n] == s[..whole] + s[whole..n] && s[..n][..whole] == s[..whole];
    DecodedSplit(s[..whole], s[whole..n]);
    assert four[..i] == s[whole..n];
    if i > 0 {
      ret := DecodeRest(ret, four, i);
    }
  }

  lemma NothingDecoded(s: string)
    ensures DecodedBody(s[..0]) == []
  {}
}
