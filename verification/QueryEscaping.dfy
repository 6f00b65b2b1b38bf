/**
 The query syntax of Go's net/url: escaping, its inverse, and the parser that
 the endpoint check relies on.
 */
module QueryEscaping {
  import opened Common
  import opened Bytes

  const AMPERSAND: byte := '&' as int
  const EQUALS: byte := '=' as int
  const SEMICOLON: byte := ';' as int
  const PERCENT: byte := '%' as int
  const PLUS: byte := '+' as int
  const SPACE: byte := ' ' as int

  /** The bytes that need no escaping: letters, digits, '-', '_', '.' and '~'. */
  predicate Unreserved(c: byte) {
    'a' as int <= c <= 'z' as int || 'A' as int <= c <= 'Z' as int || '0' as int <= c <= '9' as int
    || c == '-' as int || c == '_' as int || c == '.' as int || c == '~' as int
  }

  function UpperHex(n: int): byte
    requires 0 <= n < 16
  {
    if n < 10 then '0' as int + n else 'A' as int + n - 10
  }

  /** Both cases are accepted when reading. */
  function HexValue(c: byte): Option<int> {
    if '0' as int <= c <= '9' as int then Some(c - '0' as int)
    else if 'a' as int <= c <= 'f' as int then Some(c - 'a' as int + 10)
    else if 'A' as int <= c <= 'F' as int then Some(c - 'A' as int + 10)
    else None
  }

  function EscapeByte(c: byte): bytes {
    if Unreserved(c) then [c] else if c == SPACE then [PLUS] else [PERCENT, UpperHex(c / 16), UpperHex(c % 16)]
  }

  function Escape(s: bytes): bytes {
    if s == [] then [] else EscapeByte(s[0]) + Escape(s[1..])
  }

  function Unescape(s: bytes): Option<bytes> {
    if s == [] then Some([])
    else if s[0] == PERCENT then
      if |s| < 3 || HexValue(s[1]).None? || HexValue(s[2]).None? then None
      else
        var rest := Unescape(s[3..]);
        if rest.None? then None else Some([HexValue(s[1]).value * 16 + HexValue(s[2]).value] + rest.value)
    else
      var rest := Unescape(s[1..]);
      if rest.None? then None else Some([if s[0] == PLUS then SPACE else s[0]] + rest.value)
  }

  /** Decoding gives back every byte string, whatever bytes it holds. */
  lemma {:induction false} UnescapeInvertsEscape(s: bytes)
    ensures Unescape(Escape(s)) == Some(s)
  {
    if s != [] {
      var c, rest := s[0], Escape(s[1..]);
      UnescapeInvertsEscape(s[1..]);
      var e := EscapeByte(c) + rest;
      assert if |EscapeByte(c)| == 1 then e[1..] == rest else e[3..] == rest;
      assert c / 16 * 16 + c % 16 == c;
      assert [c] + s[1..] == s;
    }
  }

  const UPPER_HEX := Ascii("0123456789ABCDEF")

  const LOWER_HEX := Ascii("0123456789abcdef")

  /** A letter, a digit or one of the four marks of section 2.3 of RFC 3986, by their codes. */
  predicate LetterDigitOrMark(c: byte) {
    0x41 <= c <= 0x5a || 0x61 <= c <= 0x7a || 0x30 <= c <= 0x39 || c == 0x2d || c == 0x2e || c == 0x5f || c == 0x7e
  }

  lemma HexDigitsAre(n: int)
    requires 0 <= n < 16
    ensures UpperHex(n) == UPPER_HEX[n]
    ensures HexValue(UPPER_HEX[n]) == Some(n) && HexValue(LOWER_HEX[n]) == Some(n)
  {
  }

  /** No other byte is a hex digit. */
  lemma OnlyHexDigits(c: byte)
    requires HexValue(c).Some?
    ensures 0 <= HexValue(c).value < 16
    ensures c == UPPER_HEX[HexValue(c).value] || c == LOWER_HEX[HexValue(c).value]
  {
  }

  /** One byte: itself, '+' for a space, or '%' and two upper-case hex digits. */
  lemma EscapeOfOne(c: byte)
    ensures Escape([c]) == if LetterDigitOrMark(c) then [c]
                           else if c == 0x20 then [0x2b]
                           else [0x25, UPPER_HEX[c / 16], UPPER_HEX[c % 16]]
  {
    HexDigitsAre(c / 16);
    HexDigitsAre(c % 16);
    assert [c][1..] == [];
  }

  /** And byte by byte: with the law for one byte this says what every text is escaped to. */
  lemma {:induction false} EscapeByBytes(a: bytes, b: bytes)
    ensures Escape(a + b) == Escape(a) + Escape(b)
  {
    if a == [] {
      assert a + b == b;
    } else {
      assert (a + b)[0] == a[0] && (a + b)[1..] == a[1..] + b;
      EscapeByBytes(a[1..], b);
      ConcatAssociates(EscapeByte(a[0]), Escape(a[1..]), Escape(b));
    }
  }

  /** What escaped text is made of. */
  predicate EscapedAlphabet(c: byte) {
    LetterDigitOrMark(c) || c == 0x25 || c == 0x2b
  }

  lemma {:induction false} EscapedIsInAlphabet(s: bytes)
    ensures forall i :: 0 <= i < |Escape(s)| ==> EscapedAlphabet(Escape(s)[i])
  {
    if s != [] {
      EscapedIsInAlphabet(s[1..]);
      EscapeOfOne(s[0]);
      assert [s[0]][1..] == [] && Escape([s[0]]) == EscapeByte(s[0]) + [] == EscapeByte(s[0]);
    }
  }

  lemma PlainIsInAlphabet(s: bytes)
    requires Plain(s)
    ensures forall i :: 0 <= i < |s| ==> EscapedAlphabet(s[i])
  {
  }

  /** Escaped text never contains a byte that separates pairs, keys or values. */
  lemma {:induction false} EscapedIsInert(s: bytes)
    ensures AMPERSAND !in Escape(s) && EQUALS !in Escape(s) && SEMICOLON !in Escape(s)
  {
    if s != [] {
      EscapedIsInert(s[1..]);
    }
  }

  predicate Plain(s: bytes) {
    forall i :: 0 <= i < |s| ==> Unreserved(s[i])
  }

  lemma {:induction false} PlainIsItself(s: bytes)
    requires Plain(s)
    ensures Unescape(s) == Some(s) && AMPERSAND !in s && EQUALS !in s && SEMICOLON !in s
  {
    if s != [] {
      PlainIsItself(s[1..]);
      assert [s[0]] + s[1..] == s;
    }
  }

  // ---------- Parsing ----------

  datatype Pair = Pair(key: bytes, value: bytes)

  /** One piece between ampersands: nothing, a decoded pair, or a failure. */
  function ParsePiece(piece: bytes): Option<seq<Pair>> {
    if SEMICOLON in piece then None
    else if piece == [] then Some([])
    else
      var (key, value) := Cut(piece, EQUALS);
      if Unescape(key).None? || Unescape(value).None? then None
      else Some([Pair(Unescape(key).value, Unescape(value).value)])
  }

  function ParsePieces(pieces: seq<bytes>): Option<seq<Pair>> {
    if pieces == [] then Some([])
    else
      var first, rest := ParsePiece(pieces[0]), ParsePieces(pieces[1..]);
      if first.None? || rest.None? then None else Some(first.value + rest.value)
  }

  /** The decoded pairs of a query in order, or None if any piece is malformed. */
  function ParseQuery(raw: bytes): Option<seq<Pair>> {
    ParsePieces(Split(raw, AMPERSAND))
  }

  lemma {:induction false} ParseConcat(a: seq<bytes>, b: seq<bytes>)
    ensures ParsePieces(a + b)
         == if ParsePieces(a).None? || ParsePieces(b).None? then None
            else Some(ParsePieces(a).value + ParsePieces(b).value)
  {
    if a == [] {
      assert a + b == b;
      assert ParsePieces(b).Some? ==> [] + ParsePieces(b).value == ParsePieces(b).value;
    } else {
      assert (a + b)[1..] == a[1..] + b;
      ParseConcat(a[1..], b);
      if ParsePiece(a[0]).Some? && ParsePieces(a[1..]).Some? && ParsePieces(b).Some? {
        var x, y, z := ParsePiece(a[0]).value, ParsePieces(a[1..]).value, ParsePieces(b).value;
        assert x + (y + z) == (x + y) + z;
      }
    }
  }

  /** A piece written as a plain key, '=' and an escaped value parses to exactly that pair. */
  lemma WrittenPairParses(key: bytes, value: bytes)
    requires Plain(key)
    ensures var piece := key + [EQUALS] + Escape(value);
      && AMPERSAND !in piece && Cut(piece, EQUALS).0 == key
      && ParsePiece(piece) == Some([Pair(key, value)])
  {
    PlainIsItself(key);
    EscapedIsInert(value);
    UnescapeInvertsEscape(value);
    CutAtFirst(key, Escape(value), EQUALS);
  }

  /** In a query that parses, a piece whose raw name is a plain word yields a pair with that key. */
  lemma {:induction false} RawNameIsDecodedKey(pieces: seq<bytes>, i: nat, name: bytes)
    requires ParsePieces(pieces).Some? && i < |pieces| && Plain(name) && name != [] && Cut(pieces[i], EQUALS).0 == name
    ensures exists p :: p in ParsePieces(pieces).value && p.key == name
  {
    PlainIsItself(name);
    var first, rest := ParsePiece(pieces[0]).value, ParsePieces(pieces[1..]).value;
    if i == 0 {
      assert first[0] in first + rest;
    } else {
      RawNameIsDecodedKey(pieces[1..], i - 1, name);
      var p :| p in rest && p.key == name;
      assert p in first + rest;
    }
  }
}
