/**
 Unpadded base64url (RFC 4648 sections 3.5 and 5) as Go's strict decoder reads
 it, and the test that OIDC protocol values must pass
 (oidc/provider.go; RFC 7636 section 4.1).
 */
module CanonicalValue {
  import opened Common
  import opened Bytes

  type sextet = v: int | 0 <= v < 64

  function Digit(v: sextet): byte {
    if v < 26 then 'A' as int + v
    else if v < 52 then 'a' as int + v - 26
    else if v < 62 then '0' as int + v - 52
    else if v == 62 then '-' as int
    else '_' as int
  }

  function DigitValue(c: byte): Option<sextet> {
    if 'A' as int <= c <= 'Z' as int then Some(c - 'A' as int)
    else if 'a' as int <= c <= 'z' as int then Some(c - 'a' as int + 26)
    else if '0' as int <= c <= '9' as int then Some(c - '0' as int + 52)
    else if c == '-' as int then Some(62)
    else if c == '_' as int then Some(63)
    else None
  }

  /** Table 2 of RFC 4648 by character codes: capitals, small letters, digits, '-' and '_'. */
  const ALPHABET: seq<int> := seq(26, i => 0x41 + i) + seq(26, i => 0x61 + i) + seq(10, i => 0x30 + i) + [0x2d, 0x5f]

  lemma DigitsAreTheAlphabet(v: sextet)
    ensures |ALPHABET| == 64 && Digit(v) == ALPHABET[v]
  {
  }

  // The bits of three bytes, regrouped as four sextets, and back.

  function S0(x: byte): sextet { x / 4 }

  function S1(x: byte, y: byte): sextet { x % 4 * 16 + y / 16 }

  function S2(y: byte, z: byte): sextet { y % 16 * 4 + z / 64 }

  function S3(z: byte): sextet { z % 64 }

  function B0(p: sextet, q: sextet): byte { p * 4 + q / 16 }

  function B1(q: sextet, r: sextet): byte { q % 16 * 16 + r / 4 }

  function B2(r: sextet, t: sextet): byte { r % 4 * 64 + t }

  lemma BitsRoundTrip(x: byte, y: byte, z: byte)
    ensures B0(S0(x), S1(x, y)) == x && B1(S1(x, y), S2(y, z)) == y && B2(S2(y, z), S3(z)) == z
    ensures S1(x, 0) % 16 == 0 && S2(y, 0) % 4 == 0
  {
  }

  lemma SextetsRoundTrip(p: sextet, q: sextet, r: sextet, t: sextet)
    ensures S0(B0(p, q)) == p && S1(B0(p, q), B1(q, r)) == q && S2(B1(q, r), B2(r, t)) == r && S3(B2(r, t)) == t
    ensures q % 16 == 0 ==> S1(B0(p, q), 0) == q
    ensures r % 4 == 0 ==> S2(B1(q, r), 0) == r
  {
  }

  /** Three bytes make four sextets; one or two bytes left over make two or three. */
  function Sextets(b: bytes): seq<sextet> {
    if b == [] then []
    else if |b| == 1 then [S0(b[0]), S1(b[0], 0)]
    else if |b| == 2 then [S0(b[0]), S1(b[0], b[1]), S2(b[1], 0)]
    else [S0(b[0]), S1(b[0], b[1]), S2(b[1], b[2]), S3(b[2])] + Sextets(b[3..])
  }

  /** The inverse, strict: a last group of two or three must have zero trailing bits. */
  function Packed(v: seq<sextet>): Option<bytes> {
    if v == [] then Some([])
    else if |v| == 1 then None
    else if |v| == 2 then if v[1] % 16 != 0 then None else Some([B0(v[0], v[1])])
    else if |v| == 3 then if v[2] % 4 != 0 then None else Some([B0(v[0], v[1]), B1(v[1], v[2])])
    else
      var rest := Packed(v[4..]);
      if rest.None? then None
      else Some([B0(v[0], v[1]), B1(v[1], v[2]), B2(v[2], v[3])] + rest.value)
  }

  function Spelled(v: seq<sextet>): bytes {
    if v == [] then [] else [Digit(v[0])] + Spelled(v[1..])
  }

  function Read(s: bytes): Option<seq<sextet>> {
    if s == [] then Some([])
    else
      var rest := Read(s[1..]);
      if DigitValue(s[0]).None? || rest.None? then None else Some([DigitValue(s[0]).value] + rest.value)
  }

  function Encode(b: bytes): bytes {
    Spelled(Sextets(b))
  }

  /** The decoder skips line breaks wherever they stand. */
  function WithoutLineBreaks(s: bytes): bytes {
    if s == [] then []
    else (if s[0] == '\r' as int || s[0] == '\n' as int then [] else [s[0]]) + WithoutLineBreaks(s[1..])
  }

  function DecodeDigits(s: bytes): Option<bytes> {
    var v := Read(s);
    if v.None? then None else Packed(v.value)
  }

  function StrictDecode(s: bytes): Option<bytes> {
    DecodeDigits(WithoutLineBreaks(s))
  }

  predicate IsCanonical(value: bytes) {
    |value| == 43 && StrictDecode(value).Some? && |StrictDecode(value).value| == 32
  }

  /** The value handed out for 32 random bytes. */
  function RandomValue(raw: bytes): bytes
    requires |raw| == 32
  {
    Encode(raw)
  }

  lemma {:induction false} ReadInvertsSpelled(v: seq<sextet>)
    ensures Read(Spelled(v)) == Some(v) && |Spelled(v)| == |v|
  {
    if v != [] {
      ReadInvertsSpelled(v[1..]);
      assert v == [v[0]] + v[1..];
    }
  }

  lemma {:induction false} SpelledInvertsRead(s: bytes)
    requires Read(s).Some?
    ensures Spelled(Read(s).value) == s && |Read(s).value| == |s|
  {
    if s != [] {
      SpelledInvertsRead(s[1..]);
      assert s == [s[0]] + s[1..];
    }
  }

  function Group(x: byte, y: byte, z: byte): seq<sextet> {
    [S0(x), S1(x, y), S2(y, z), S3(z)]
  }

  /** One whole group in front. */
  lemma PackedGroup(x: byte, y: byte, z: byte, rest: seq<sextet>)
    requires Packed(rest).Some?
    ensures Packed(Group(x, y, z) + rest) == Some([x, y, z] + Packed(rest).value)
  {
    var v := Group(x, y, z) + rest;
    assert v[4..] == rest;
    BitsRoundTrip(x, y, z);
  }

  function Number24(x: int, y: int, z: int): int {
    x * 0x1_0000 + y * 0x100 + z
  }

  function Number4x6(p: int, q: int, r: int, t: int): int {
    p * 0x4_0000 + q * 0x1000 + r * 0x40 + t
  }

  /** Three bytes and their four sextets are the same 24-bit number, read from the left. */
  lemma GroupIsTheNumber(x: byte, y: byte, z: byte)
    ensures Number4x6(S0(x), S1(x, y), S2(y, z), S3(z)) == Number24(x, y, z)
  {
  }

  /** Whole groups of three bytes are encoded apart from what follows them. */
  lemma {:induction false} GroupsApart(a: bytes, b: bytes)
    requires |a| % 3 == 0
    ensures Sextets(a + b) == Sextets(a) + Sextets(b)
    decreases |a|
  {
    if a == [] {
      assert a + b == b;
    } else {
      assert (a + b)[3..] == a[3..] + b;
      GroupsApart(a[3..], b);
      ConcatAssociates(Group(a[0], a[1], a[2]), Sextets(a[3..]), Sextets(b));
    }
  }

  /** One group; bytes left over are filled with zero bits, and sextets that hold none of theirs are left out. */
  lemma OneGroup(x: byte, y: byte, z: byte, none: byte)
    requires none == 0
    ensures Sextets([x, y, z]) == Group(x, y, z)
    ensures Sextets([x, y]) == Group(x, y, none)[..3]
    ensures Sextets([x]) == Group(x, none, none)[..2]
  {
    assert [x, y, z][3..] == [];
  }

  /** Every digit of an encoding is the alphabet's letter for its sextet. */
  lemma EncodedDigits(b: bytes, i: nat)
    requires i < |Sextets(b)|
    ensures |Encode(b)| == |Sextets(b)| && Encode(b)[i] == ALPHABET[Sextets(b)[i]]
  {
    SpelledAt(Sextets(b), i);
    DigitsAreTheAlphabet(Sextets(b)[i]);
  }

  lemma {:induction false} SpelledAt(v: seq<sextet>, i: nat)
    requires i < |v|
    ensures |Spelled(v)| == |v| && Spelled(v)[i] == Digit(v[i])
  {
    ReadInvertsSpelled(v);
    if i > 0 {
      SpelledAt(v[1..], i - 1);
    }
  }

  lemma PackedTwo(x: byte, y: byte, none: byte, v: seq<sextet>)
    requires none == 0 && |v| == 3 && v[0] == S0(x) && v[1] == S1(x, y) && v[2] == S2(y, none)
    ensures Packed(v) == Some([x, y])
  {
    BitsRoundTrip(x, y, none);
  }

  lemma {:induction false} PackedInvertsSextets(b: bytes)
    ensures Packed(Sextets(b)) == Some(b)
    decreases |b|
  {
    if |b| == 1 {
      assert b == [b[0]];
    } else if |b| == 2 {
      PackedTwo(b[0], b[1], 0, Sextets(b));
      assert b == [b[0], b[1]];
    } else if |b| >= 3 {
      PackedInvertsSextets(b[3..]);
      PackedGroup(b[0], b[1], b[2], Sextets(b[3..]));
      assert Sextets(b) == Group(b[0], b[1], b[2]) + Sextets(b[3..]);
      assert b == [b[0], b[1], b[2]] + b[3..];
    }
  }

  lemma {:induction false} SextetsLength(b: bytes)
    ensures |Sextets(b)| == (|b| * 4 + 2) / 3
    decreases |b|
  {
    if |b| >= 3 {
      SextetsLength(b[3..]);
    }
  }

  lemma SextetsGroup(v: seq<sextet>, rest: bytes)
    requires |v| >= 4
    ensures Sextets([B0(v[0], v[1]), B1(v[1], v[2]), B2(v[2], v[3])] + rest) == v[..4] + Sextets(rest)
  {
    var b := [B0(v[0], v[1]), B1(v[1], v[2]), B2(v[2], v[3])] + rest;
    assert b[3..] == rest;
    SextetsRoundTrip(v[0], v[1], v[2], v[3]);
    assert v[..4] == [v[0], v[1], v[2], v[3]];
  }

  lemma LastSextetOfTwo(p: sextet, q: sextet, r: sextet, none: byte)
    requires r % 4 == 0 && none == 0
    ensures S0(B0(p, q)) == p && S1(B0(p, q), B1(q, r)) == q && S2(B1(q, r), none) == r
  {
  }

  lemma SextetsOfTwo(v: seq<sextet>, none: byte)
    requires |v| == 3 && none == 0 && Packed(v).Some?
    ensures Sextets(Packed(v).value) == v && |Packed(v).value| == 2
  {
    LastSextetOfTwo(v[0], v[1], v[2], none);
    assert Sextets([B0(v[0], v[1]), B1(v[1], v[2])]) == [v[0], v[1], v[2]] == v;
  }

  lemma {:induction false} SextetsInvertPacked(v: seq<sextet>)
    requires Packed(v).Some?
    ensures Sextets(Packed(v).value) == v
    ensures |Packed(v).value| == |v| * 3 / 4
    decreases |v|
  {
    if |v| == 2 {
    } else if |v| == 3 {
      SextetsOfTwo(v, 0);
    } else if |v| >= 4 {
      SextetsInvertPacked(v[4..]);
      SextetsGroup(v, Packed(v[4..]).value);
      assert v == v[..4] + v[4..];
    }
  }

  lemma DecodeInvertsEncode(b: bytes)
    ensures DecodeDigits(Encode(b)) == Some(b)
    ensures |Encode(b)| == (|b| * 4 + 2) / 3
  {
    ReadInvertsSpelled(Sextets(b));
    PackedInvertsSextets(b);
    SextetsLength(b);
  }

  /** The strict decoder accepts no second spelling. */
  lemma EncodeInvertsDecode(s: bytes)
    requires DecodeDigits(s).Some?
    ensures Encode(DecodeDigits(s).value) == s
    ensures |DecodeDigits(s).value| == |s| * 3 / 4
  {
    SpelledInvertsRead(s);
    SextetsInvertPacked(Read(s).value);
  }

  lemma {:induction false} LineBreaksShorten(s: bytes)
    ensures |WithoutLineBreaks(s)| <= |s|
    ensures |WithoutLineBreaks(s)| == |s| ==> WithoutLineBreaks(s) == s
    ensures (forall c :: c in s ==> DigitValue(c).Some?) ==> WithoutLineBreaks(s) == s
  {
    if s != [] {
      LineBreaksShorten(s[1..]);
      assert s == [s[0]] + s[1..];
      assert s[0] in s && forall c :: c in s[1..] ==> c in s;
    }
  }

  lemma {:induction false} SpelledDigits(v: seq<sextet>)
    ensures forall c :: c in Spelled(v) ==> DigitValue(c).Some?
  {
    if v != [] {
      SpelledDigits(v[1..]);
    }
  }

  /** Two byte strings never share an encoding. */
  lemma EncodeIsInjective(a: bytes, b: bytes)
    requires Encode(a) == Encode(b)
    ensures a == b
  {
    DecodeInvertsEncode(a);
    DecodeInvertsEncode(b);
  }

  /** The test accepts exactly the encodings of 32-byte values, line breaks notwithstanding. */
  lemma CanonicalExactly(value: bytes)
    ensures IsCanonical(value) <==> exists raw: bytes :: |raw| == 32 && Encode(raw) == value
    ensures forall a: bytes, b: bytes :: Encode(a) == value && Encode(b) == value ==> a == b
  {
    if IsCanonical(value) {
      var digits := WithoutLineBreaks(value);
      LineBreaksShorten(value);
      EncodeInvertsDecode(digits);
    }
    forall raw: bytes | |raw| == 32 && Encode(raw) == value ensures IsCanonical(value) {
      RandomValuesAreCanonical(raw);
    }
    forall a: bytes, b: bytes | Encode(a) == value && Encode(b) == value ensures a == b {
      EncodeIsInjective(a, b);
    }
  }

  lemma RandomValuesAreCanonical(raw: bytes)
    requires |raw| == 32
    ensures IsCanonical(RandomValue(raw)) && StrictDecode(RandomValue(raw)) == Some(raw)
  {
    SpelledDigits(Sextets(raw));
    LineBreaksShorten(Encode(raw));
    DecodeInvertsEncode(raw);
  }

  /** The length test alone would not do: a 44-byte text with one line break also decodes to 32 bytes. */
  lemma LineBreaksAreSkipped(raw: bytes)
    requires |raw| == 32
    ensures var text := Encode(raw) + ['\n' as int];
      |text| == 44 && StrictDecode(text) == Some(raw) && !IsCanonical(text)
  {
    SpelledDigits(Sextets(raw));
    DecodeInvertsEncode(raw);
    TrailingBreak(Encode(raw));
  }

  lemma {:induction false} TrailingBreak(s: bytes)
    requires forall c :: c in s ==> DigitValue(c).Some?
    ensures WithoutLineBreaks(s + ['\n' as int]) == s
  {
    if s == [] {
      assert s + ['\n' as int] == ['\n' as int];
      assert ['\n' as int][1..] == [];
    } else {
      assert (s + ['\n' as int])[1..] == s[1..] + ['\n' as int];
      assert s[0] in s && forall c :: c in s[1..] ==> c in s;
      TrailingBreak(s[1..]);
      assert s == [s[0]] + s[1..];
    }
  }
}
