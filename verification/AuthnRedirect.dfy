/**
 The signed HTTP-Redirect binding of an AuthnRequest (saml/authn_request.go):
 which endpoints are accepted, how the query is assembled, and what a receiver
 following section 3.4.4.1 of SAML Bindings reads back.
 */
module AuthnRedirect {
  import opened Common
  import opened Bytes
  import opened QueryEscaping
  import FixedWidth

  /** The parameter names of the binding. */
  datatype Names = Names(request: bytes, response: bytes, relayState: bytes, sigAlg: bytes, signature: bytes)
  {
    function All(): seq<bytes> {
      [request, response, relayState, sigAlg, signature]
    }

    predicate Good() {
      && (forall i :: 0 <= i < 5 ==> Plain(All()[i]) && All()[i] != [])
      && (forall i, j :: 0 <= i < j < 5 ==> All()[i] != All()[j])
    }
  }

  const BINDING := Names(Ascii("SAMLRequest"), Ascii("SAMLResponse"), Ascii("RelayState"), Ascii("SigAlg"), Ascii("Signature"))

  /** All that the proofs use of the names: they need no escaping, and differ (here, by length or first letter). */
  lemma BindingNamesAreGood()
    ensures BINDING.Good()
  {
    var n := BINDING;
    assert Plain(n.request) && Plain(n.response) && Plain(n.relayState) && Plain(n.sigAlg) && Plain(n.signature);
    assert n.relayState[0] != n.request[0];
  }

  /** A parsed URL; `user` says whether it carries user information. */
  datatype URL = URL(scheme: string, host: string, user: bool, fragment: string, rawQuery: bytes)

  /** What the identity provider's endpoint must satisfy. */
  predicate EndpointOk(n: Names, u: URL, relay: bytes) {
    && (u.scheme == "https" || u.scheme == "http") && u.host != "" && !u.user && u.fragment == ""
    && |relay| <= 80
    && ParseQuery(u.rawQuery).Some?
    && forall p :: p in ParseQuery(u.rawQuery).value ==> p.key !in n.All()
  }

  method AuthnEndpoint(n: Names, parsed: Option<URL>, relay: bytes) returns (endpoint: Option<URL>)
    ensures endpoint == if parsed.Some? && EndpointOk(n, parsed.value, relay) then parsed else None
  {
    if parsed.None? {
      return None;
    }
    var u := parsed.value;
    if (u.scheme != "https" && u.scheme != "http") || u.host == "" || u.user || u.fragment != "" || |relay| > 80 {
      return None;
    }
    var query := ParseQuery(u.rawQuery);
    if query.None? {
      return None;
    }
    var reserved := n.All();
    for i := 0 to |reserved|
      invariant forall j, p :: 0 <= j < i && p in query.value ==> p.key != reserved[j]
    {
      if exists p :: p in query.value && p.key == reserved[i] {
        return None;
      }
    }
    return parsed;
  }

  // ---------- Pairs, written and read ----------

  function Written(p: Pair): bytes {
    p.key + [EQUALS] + Escape(p.value)
  }

  function Pieces(pairs: seq<Pair>): seq<bytes> {
    if pairs == [] then [] else [Written(pairs[0])] + Pieces(pairs[1..])
  }

  predicate PlainKeys(pairs: seq<Pair>) {
    forall p :: p in pairs ==> Plain(p.key)
  }

  function KeyedBy(pairs: seq<Pair>, key: bytes): seq<Pair> {
    if pairs == [] then [] else (if pairs[0].key == key then [pairs[0]] else []) + KeyedBy(pairs[1..], key)
  }

  /** The raw pieces with this raw name. */
  function NamedPieces(pieces: seq<bytes>, name: bytes): seq<bytes> {
    if pieces == [] then []
    else (if Cut(pieces[0], EQUALS).0 == name then [pieces[0]] else []) + NamedPieces(pieces[1..], name)
  }

  lemma {:induction false} PiecesConcat(a: seq<Pair>, b: seq<Pair>)
    ensures Pieces(a + b) == Pieces(a) + Pieces(b)
  {
    if a == [] {
      assert a + b == b;
    } else {
      assert (a + b)[1..] == a[1..] + b;
      PiecesConcat(a[1..], b);
    }
  }

  lemma {:induction false} NamedConcat(a: seq<bytes>, b: seq<bytes>, name: bytes)
    ensures NamedPieces(a + b, name) == NamedPieces(a, name) + NamedPieces(b, name)
  {
    if a == [] {
      assert a + b == b;
    } else {
      assert (a + b)[1..] == a[1..] + b;
      NamedConcat(a[1..], b, name);
    }
  }

  lemma {:induction false} PiecesReadBack(pairs: seq<Pair>)
    requires PlainKeys(pairs)
    ensures ParsePieces(Pieces(pairs)) == Some(pairs)
    ensures forall name :: NamedPieces(Pieces(pairs), name) == Pieces(KeyedBy(pairs, name))
    ensures forall piece :: piece in Pieces(pairs) ==> AMPERSAND !in piece
  {
    if pairs != [] {
      var p := pairs[0];
      assert p in pairs;
      PiecesReadBack(pairs[1..]);
      WrittenPairParses(p.key, p.value);
      assert Pieces(pairs)[1..] == Pieces(pairs[1..]);
      assert [p] + pairs[1..] == pairs;
      forall name ensures NamedPieces(Pieces(pairs), name) == Pieces(KeyedBy(pairs, name)) {
        var one := if p.key == name then [p] else [];
        PiecesConcat(one, KeyedBy(pairs[1..], name));
        assert Pieces([p]) == [Written(p)] + Pieces([p][1..]);
      }
    }
  }

  lemma {:induction false} SplitJoin(pieces: seq<bytes>)
    requires pieces != [] && forall piece :: piece in pieces ==> AMPERSAND !in piece
    ensures Split(Join(pieces, AMPERSAND), AMPERSAND) == pieces
  {
    SplitWithoutSeparator(pieces[0], AMPERSAND);
    if |pieces| > 1 {
      SplitJoin(pieces[1..]);
      SplitConcat(pieces[0], Join(pieces[1..], AMPERSAND), AMPERSAND);
      assert [pieces[0]] + pieces[1..] == pieces;
    }
  }

  lemma {:induction false} JoinAppend(pieces: seq<bytes>, last: bytes)
    requires pieces != []
    ensures Join(pieces + [last], AMPERSAND) == Join(pieces, AMPERSAND) + [AMPERSAND] + last
  {
    assert (pieces + [last])[1..] == pieces[1..] + [last];
    if |pieces| > 1 {
      JoinAppend(pieces[1..], last);
    } else {
      assert pieces + [last] == [pieces[0], last];
    }
  }

  // ---------- The redirect ----------

  /** The signed pairs, in the order of the binding; an empty relay state is not sent. */
  function SignedPairs(n: Names, payload: bytes, relay: bytes, algorithm: bytes): seq<Pair> {
    [Pair(n.request, payload)]
    + (if relay == [] then [] else [Pair(n.relayState, relay)])
    + [Pair(n.sigAlg, algorithm)]
  }

  /** The octets a receiver verifies: its own reassembly of the raw pairs, refused when one is missing or repeated. */
  function ReceivedOctets(n: Names, raw: bytes): Option<bytes> {
    var pieces := Split(raw, AMPERSAND);
    var request, relay, algorithm :=
      NamedPieces(pieces, n.request), NamedPieces(pieces, n.relayState), NamedPieces(pieces, n.sigAlg);
    if |request| != 1 || |relay| > 1 || |algorithm| != 1 then None
    else Some(Join(request + relay + algorithm, AMPERSAND))
  }

  /** What the key produces over the octets: bytes for RSA, a pair of integers for ECDSA. */
  datatype RawSignature = Rsa(octets: bytes) | Ecdsa(r: int, s: int, order: nat)

  predicate Usable(made: RawSignature) {
    made.Ecdsa? ==> 0 < made.r < made.order && 0 < made.s < made.order
  }

  /** RSA octets are sent as they are; an ECDSA pair as two halves of the order's width. */
  ghost predicate IsSignature(made: RawSignature, signature: bytes) {
    match made
    case Rsa(octets) => signature == octets
    case Ecdsa(r, s, order) =>
      var w := FixedWidth.Width(order);
      |signature| == 2 * w && FixedWidth.Value(signature[..w]) == r && FixedWidth.Value(signature[w..]) == s
  }

  /** What splitting, parsing and verifying the final query give. */
  ghost predicate ReadsBack(n: Names, endpoint: URL, signed: seq<Pair>, text: bytes, rawQuery: bytes) {
    var own := signed + [Pair(n.signature, text)];
    && Split(rawQuery, AMPERSAND)
       == (if endpoint.rawQuery == [] then [] else Split(endpoint.rawQuery, AMPERSAND)) + Pieces(own)
    && ParseQuery(endpoint.rawQuery).Some?
    && ParseQuery(rawQuery) == Some(ParseQuery(endpoint.rawQuery).value + own)
    && ReceivedOctets(n, rawQuery) == Some(Join(Pieces(signed), AMPERSAND))
  }

  /** The octets that are signed. */
  function SignedOctets(n: Names, payload: bytes, relay: bytes, algorithm: bytes): bytes {
    Join(Pieces(SignedPairs(n, payload, relay, algorithm)), AMPERSAND)
  }

  /** Nothing but escaped text and the two separators: no byte that would end a query, as '#' would. */
  predicate MadeOfPairs(s: bytes) {
    forall i :: 0 <= i < |s| ==> EscapedAlphabet(s[i]) || s[i] == AMPERSAND || s[i] == EQUALS
  }

  /**
   The endpoint's query comes first and untouched, the rest is made of pairs, and the whole reads back,
   with a signature of exactly the signed octets.
   */
  ghost predicate Delivers(n: Names, endpoint: URL, payload: bytes, relay: bytes, algorithm: bytes,
                           made: RawSignature, base64: bytes -> bytes, rawQuery: bytes) {
    && endpoint.rawQuery <= rawQuery && MadeOfPairs(rawQuery[|endpoint.rawQuery|..])
    && exists signature :: IsSignature(made, signature)
         && ReadsBack(n, endpoint, SignedPairs(n, payload, relay, algorithm), base64(signature), rawQuery)
  }

  /** `sign` is the key, which may fail, and `base64` the standard encoding. */
  method SignedRedirect(n: Names, endpoint: URL, payload: bytes, relay: bytes, algorithm: bytes,
                        sign: bytes -> Option<RawSignature>, base64: bytes -> bytes)
    returns (rawQuery: Option<bytes>)
    requires n.Good() && EndpointOk(n, endpoint, relay)
    ensures var made := sign(SignedOctets(n, payload, relay, algorithm));
      && (rawQuery.Some? <==> made.Some? && Usable(made.value))
      && (rawQuery.Some? ==> Delivers(n, endpoint, payload, relay, algorithm, made.value, base64, rawQuery.value))
  {
    var query := n.request + [EQUALS] + Escape(payload);
    if relay != [] {
      query := query + [AMPERSAND] + n.relayState + [EQUALS] + Escape(relay);
    }
    query := query + [AMPERSAND] + n.sigAlg + [EQUALS] + Escape(algorithm);
    ghost var octets := query;
    AssembledIsJoin(n, payload, relay, algorithm, query);
    var attempt := sign(query);
    if attempt.None? {
      return None;
    }
    var made := attempt.value;
    var signature := [];
    if made.Ecdsa? {
      var encoded := FixedWidth.EncodeRS(made.r, made.s, made.order);
      if encoded.None? {
        return None;
      }
      signature := encoded.value;
    } else {
      signature := made.octets;
    }
    assert IsSignature(made, signature);
    var text := base64(signature);
    query := query + [AMPERSAND] + n.signature + [EQUALS] + Escape(text);
    if endpoint.rawQuery != [] {
      query := endpoint.rawQuery + [AMPERSAND] + query;
    }
    AssembledDelivers(n, endpoint, payload, relay, algorithm, made, base64, signature, octets, query);
    return Some(query);
  }

  /** The endpoint check and the signed redirect, with the names of the binding. */
  method NewSignedRequest(parsed: Option<URL>, payload: bytes, relay: bytes, algorithm: bytes,
                          sign: bytes -> Option<RawSignature>, base64: bytes -> bytes)
    returns (rawQuery: Option<bytes>)
    ensures var made := sign(SignedOctets(BINDING, payload, relay, algorithm));
      && (rawQuery.Some? <==>
           parsed.Some? && EndpointOk(BINDING, parsed.value, relay) && made.Some? && Usable(made.value))
      && (rawQuery.Some? ==>
           Delivers(BINDING, parsed.value, payload, relay, algorithm, made.value, base64, rawQuery.value))
  {
    BindingNamesAreGood();
    var endpoint := AuthnEndpoint(BINDING, parsed, relay);
    if endpoint.None? {
      return None;
    }
    rawQuery := SignedRedirect(BINDING, endpoint.value, payload, relay, algorithm, sign, base64);
  }

  /** Appending a pair as the source writes it. */
  lemma AppendedPair(query: bytes, p: Pair)
    ensures query + [AMPERSAND] + p.key + [EQUALS] + Escape(p.value) == query + [AMPERSAND] + Written(p)
  {
  }

  lemma PiecesAppend(pairs: seq<Pair>, p: Pair)
    ensures Pieces(pairs + [p]) == Pieces(pairs) + [Written(p)]
  {
    PiecesConcat(pairs, [p]);
    assert Pieces([p]) == [Written(p)] + Pieces([p][1..]) == [Written(p)];
  }

  lemma AssembledIsJoin(n: Names, payload: bytes, relay: bytes, algorithm: bytes, query: bytes)
    requires
      var first := n.request + [EQUALS] + Escape(payload);
      var second := if relay == [] then first else first + [AMPERSAND] + n.relayState + [EQUALS] + Escape(relay);
      query == second + [AMPERSAND] + n.sigAlg + [EQUALS] + Escape(algorithm)
    ensures query == Join(Pieces(SignedPairs(n, payload, relay, algorithm)), AMPERSAND)
  {
    var a, b, c := Pair(n.request, payload), Pair(n.relayState, relay), Pair(n.sigAlg, algorithm);
    PiecesAppend([], a);
    assert [] + [a] == [a] && Pieces([a]) == [Written(a)];
    var pairs := [a];
    if relay != [] {
      AppendedPair(Written(a), b);
      PiecesAppend([a], b);
      JoinAppend(Pieces([a]), Written(b));
      pairs := [a] + [b];
    }
    var joined := Join(Pieces(pairs), AMPERSAND);
    AppendedPair(joined, c);
    PiecesAppend(pairs, c);
    JoinAppend(Pieces(pairs), Written(c));
    assert SignedPairs(n, payload, relay, algorithm) == pairs + [c];
  }

  lemma {:induction false} KeyedConcat(a: seq<Pair>, b: seq<Pair>, key: bytes)
    ensures KeyedBy(a + b, key) == KeyedBy(a, key) + KeyedBy(b, key)
  {
    if a == [] {
      assert a + b == b;
    } else {
      assert (a + b)[0] == a[0] && (a + b)[1..] == a[1..] + b;
      KeyedConcat(a[1..], b, key);
      var head := if a[0].key == key then [a[0]] else [];
      assert head + (KeyedBy(a[1..], key) + KeyedBy(b, key)) == (head + KeyedBy(a[1..], key)) + KeyedBy(b, key);
    }
  }

  lemma KeyedFour(a: Pair, b: seq<Pair>, c: Pair, d: Pair, key: bytes)
    requires |b| <= 1
    ensures KeyedBy([a] + b + [c] + [d], key)
         == (if a.key == key then [a] else []) + (if |b| == 1 && b[0].key == key then b else [])
            + (if c.key == key then [c] else []) + (if d.key == key then [d] else [])
  {
    KeyedConcat([a], b, key);
    KeyedConcat([a] + b, [c], key);
    KeyedConcat([a] + b + [c], [d], key);
    forall p: Pair ensures KeyedBy([p], key) == if p.key == key then [p] else [] {
      assert [p][1..] == [];
    }
    if |b| == 1 {
      assert b == [b[0]];
    }
  }

  lemma NamesDiffer(n: Names)
    requires n.Good()
    ensures n.request != n.relayState && n.request != n.sigAlg && n.request != n.signature
    ensures n.relayState != n.sigAlg && n.relayState != n.signature && n.sigAlg != n.signature
    ensures Plain(n.request) && Plain(n.relayState) && Plain(n.sigAlg) && Plain(n.signature)
  {
    var all := n.All();
    assert all[0] != all[2] && all[0] != all[3] && all[0] != all[4];
    assert all[2] != all[3] && all[2] != all[4] && all[3] != all[4];
    assert Plain(all[0]) && Plain(all[2]) && Plain(all[3]) && Plain(all[4]);
  }

  /** Pairs under different keys are found one key at a time. */
  lemma KeyedApart(a: Pair, b: seq<Pair>, c: Pair, d: Pair, key: bytes)
    requires |b| <= 1 && (|b| == 1 ==> b[0].key == key)
    requires a.key != key && a.key != c.key && a.key != d.key && key != c.key && key != d.key && c.key != d.key
    ensures var own := [a] + b + [c] + [d];
      KeyedBy(own, a.key) == [a] && KeyedBy(own, key) == b && KeyedBy(own, c.key) == [c]
  {
    KeyedFour(a, b, c, d, a.key);
    KeyedFour(a, b, c, d, key);
    KeyedFour(a, b, c, d, c.key);
  }

  lemma OwnKeysArePlain(n: Names, payload: bytes, relay: bytes, algorithm: bytes, text: bytes)
    requires n.Good()
    ensures PlainKeys(SignedPairs(n, payload, relay, algorithm) + [Pair(n.signature, text)])
  {
    NamesDiffer(n);
  }

  /** Of the redirect's own pairs, the three named ones are exactly the signed ones. */
  lemma OwnPairsKeyed(n: Names, payload: bytes, relay: bytes, algorithm: bytes, text: bytes)
    requires n.Good()
    ensures var signed := SignedPairs(n, payload, relay, algorithm);
      var own := signed + [Pair(n.signature, text)];
      && PlainKeys(own)
      && KeyedBy(own, n.request) + KeyedBy(own, n.relayState) + KeyedBy(own, n.sigAlg) == signed
      && |KeyedBy(own, n.request)| == 1 && |KeyedBy(own, n.relayState)| <= 1 && |KeyedBy(own, n.sigAlg)| == 1
  {
    NamesDiffer(n);
    OwnKeysArePlain(n, payload, relay, algorithm, text);
    var a, c, d := Pair(n.request, payload), Pair(n.sigAlg, algorithm), Pair(n.signature, text);
    var b := if relay == [] then [] else [Pair(n.relayState, relay)];
    KeyedApart(a, b, c, d, n.relayState);
  }

  /** No raw piece of an accepted endpoint bears a reserved name. */
  lemma EndpointPiecesUnnamed(pieces: seq<bytes>, reserved: seq<bytes>, name: bytes)
    requires ParsePieces(pieces).Some? && (forall p :: p in ParsePieces(pieces).value ==> p.key !in reserved)
    requires name in reserved && Plain(name) && name != []
    ensures NamedPieces(pieces, name) == []
  {
    NamedMembers(pieces, name);
    if NamedPieces(pieces, name) != [] {
      var piece := NamedPieces(pieces, name)[0];
      assert piece in NamedPieces(pieces, name);
      var i :| 0 <= i < |pieces| && pieces[i] == piece;
      RawNameIsDecodedKey(pieces, i, name);
    }
  }

  lemma {:induction false} NamedMembers(pieces: seq<bytes>, name: bytes)
    ensures forall x :: x in NamedPieces(pieces, name) ==> x in pieces && Cut(x, EQUALS).0 == name
  {
    if pieces != [] {
      NamedMembers(pieces[1..], name);
    }
  }

  lemma WrittenIsMadeOfPairs(p: Pair)
    requires Plain(p.key)
    ensures MadeOfPairs(Written(p))
  {
    PlainIsInAlphabet(p.key);
    EscapedIsInAlphabet(p.value);
  }

  lemma {:induction false} JoinedIsMadeOfPairs(pairs: seq<Pair>)
    requires PlainKeys(pairs)
    ensures MadeOfPairs(Join(Pieces(pairs), AMPERSAND))
  {
    if pairs != [] {
      WrittenIsMadeOfPairs(pairs[0]);
      JoinedIsMadeOfPairs(pairs[1..]);
    }
  }

  lemma AssembledIsMadeOfPairs(n: Names, payload: bytes, relay: bytes, algorithm: bytes, text: bytes, octets: bytes)
    requires n.Good() && octets == SignedOctets(n, payload, relay, algorithm)
    ensures MadeOfPairs(octets + [AMPERSAND] + n.signature + [EQUALS] + Escape(text))
  {
    OwnPairsKeyed(n, payload, relay, algorithm, text);
    var signed, last := SignedPairs(n, payload, relay, algorithm), Pair(n.signature, text);
    assert forall p :: p in signed ==> p in signed + [last];
    JoinedIsMadeOfPairs(signed);
    assert last in signed + [last];
    WrittenIsMadeOfPairs(last);
    AppendedPair(octets, last);
  }

  lemma AssembledReadsBack(n: Names, endpoint: URL, payload: bytes, relay: bytes, algorithm: bytes, text: bytes,
                           octets: bytes, query: bytes)
    requires n.Good() && EndpointOk(n, endpoint, relay)
    requires octets == Join(Pieces(SignedPairs(n, payload, relay, algorithm)), AMPERSAND)
    requires var tail := octets + [AMPERSAND] + n.signature + [EQUALS] + Escape(text);
      query == if endpoint.rawQuery == [] then tail else endpoint.rawQuery + [AMPERSAND] + tail
    ensures ReadsBack(n, endpoint, SignedPairs(n, payload, relay, algorithm), text, query)
  {
    var signed := SignedPairs(n, payload, relay, algorithm);
    var last := Pair(n.signature, text);
    OwnPairsKeyed(n, payload, relay, algorithm, text);
    PiecesAppend(signed, last);
    PiecesLength(signed);
    JoinAppend(Pieces(signed), Written(last));
    AppendedPair(octets, last);
    PairsReadBack(n, endpoint, signed, text, query);
  }

  lemma BehindEndpoint(theirs: bytes, tail: bytes, query: bytes)
    requires MadeOfPairs(tail) && query == if theirs == [] then tail else theirs + [AMPERSAND] + tail
    ensures theirs <= query && MadeOfPairs(query[|theirs|..])
  {
    assert query[|theirs|..] == if theirs == [] then tail else [AMPERSAND] + tail;
  }

  lemma AssembledDelivers(n: Names, endpoint: URL, payload: bytes, relay: bytes, algorithm: bytes,
                          made: RawSignature, base64: bytes -> bytes, signature: bytes, octets: bytes, query: bytes)
    requires n.Good() && EndpointOk(n, endpoint, relay) && IsSignature(made, signature)
    requires octets == SignedOctets(n, payload, relay, algorithm)
    requires var tail := octets + [AMPERSAND] + n.signature + [EQUALS] + Escape(base64(signature));
      query == if endpoint.rawQuery == [] then tail else endpoint.rawQuery + [AMPERSAND] + tail
    ensures Delivers(n, endpoint, payload, relay, algorithm, made, base64, query)
  {
    var text := base64(signature);
    AssembledReadsBack(n, endpoint, payload, relay, algorithm, text, octets, query);
    AssembledIsMadeOfPairs(n, payload, relay, algorithm, text, octets);
    BehindEndpoint(endpoint.rawQuery, octets + [AMPERSAND] + n.signature + [EQUALS] + Escape(text), query);
  }

  /** The same, for any own pairs of which the named ones are the signed ones. */
  lemma PairsReadBack(n: Names, endpoint: URL, signed: seq<Pair>, text: bytes, query: bytes)
    requires n.Good() && ParseQuery(endpoint.rawQuery).Some?
    requires forall p :: p in ParseQuery(endpoint.rawQuery).value ==> p.key !in n.All()
    requires var own := signed + [Pair(n.signature, text)];
      && PlainKeys(own)
      && KeyedBy(own, n.request) + KeyedBy(own, n.relayState) + KeyedBy(own, n.sigAlg) == signed
      && |KeyedBy(own, n.request)| == 1 && |KeyedBy(own, n.relayState)| <= 1 && |KeyedBy(own, n.sigAlg)| == 1
      && query == (var tail := Join(Pieces(own), AMPERSAND);
                   if endpoint.rawQuery == [] then tail else endpoint.rawQuery + [AMPERSAND] + tail)
    ensures ReadsBack(n, endpoint, signed, text, query)
  {
    var own := signed + [Pair(n.signature, text)];
    var theirs := if endpoint.rawQuery == [] then [] else Split(endpoint.rawQuery, AMPERSAND);
    PiecesReadBack(own);
    PiecesLength(own);
    SplitInFront(endpoint.rawQuery, Pieces(own), query);
    EmptyQueryParses();
    ParseInFront(theirs, own, ParseQuery(endpoint.rawQuery).value);
    ReceiverAgrees(n, signed, own, theirs);
  }

  lemma EmptyQueryParses()
    ensures ParseQuery([]) == Some([]) && ParsePieces([]) == Some([])
  {
    var pieces: seq<bytes> := [[]];
    assert Split([], AMPERSAND) == pieces && pieces[1..] == [];
    var first := ParsePiece([]);
    assert first == Some([]) && ParsePieces(pieces[1..]) == Some([]);
    assert ParsePieces(pieces) == Some(first.value + []) && first.value + [] == [];
  }

  lemma SplitInFront(theirs: bytes, own: seq<bytes>, query: bytes)
    requires own != [] && forall piece :: piece in own ==> AMPERSAND !in piece
    requires query == if theirs == [] then Join(own, AMPERSAND) else theirs + [AMPERSAND] + Join(own, AMPERSAND)
    ensures Split(query, AMPERSAND) == (if theirs == [] then [] else Split(theirs, AMPERSAND)) + own
  {
    SplitJoin(own);
    if theirs == [] {
      assert [] + own == own;
    } else {
      SplitConcat(theirs, Join(own, AMPERSAND), AMPERSAND);
    }
  }

  lemma ParseInFront(theirs: seq<bytes>, own: seq<Pair>, pairs: seq<Pair>)
    requires PlainKeys(own)
    requires ParsePieces(theirs) == Some(pairs)
    ensures ParsePieces(theirs + Pieces(own)) == Some(pairs + own)
  {
    PiecesReadBack(own);
    ParseConcat(theirs, Pieces(own));
  }

  lemma ReceiverAgrees(n: Names, signed: seq<Pair>, own: seq<Pair>, theirs: seq<bytes>)
    requires n.Good() && PlainKeys(own)
    requires ParsePieces(theirs).Some? && forall p :: p in ParsePieces(theirs).value ==> p.key !in n.All()
    requires KeyedBy(own, n.request) + KeyedBy(own, n.relayState) + KeyedBy(own, n.sigAlg) == signed
    ensures forall name :: name in [n.request, n.relayState, n.sigAlg] ==>
              NamedPieces(theirs + Pieces(own), name) == Pieces(KeyedBy(own, name))
    ensures Pieces(KeyedBy(own, n.request)) + Pieces(KeyedBy(own, n.relayState)) + Pieces(KeyedBy(own, n.sigAlg)) == Pieces(signed)
    ensures forall name :: |Pieces(KeyedBy(own, name))| == |KeyedBy(own, name)|
  {
    PiecesReadBack(own);
    var all := n.All();
    assert all[0] in all && all[2] in all && all[3] in all;
    forall name | name in [n.request, n.relayState, n.sigAlg]
      ensures NamedPieces(theirs + Pieces(own), name) == Pieces(KeyedBy(own, name))
    {
      NamedConcat(theirs, Pieces(own), name);
      EndpointPiecesUnnamed(theirs, all, name);
    }
    PiecesConcat(KeyedBy(own, n.request), KeyedBy(own, n.relayState));
    PiecesConcat(KeyedBy(own, n.request) + KeyedBy(own, n.relayState), KeyedBy(own, n.sigAlg));
    forall name ensures |Pieces(KeyedBy(own, name))| == |KeyedBy(own, name)| {
      PiecesLength(KeyedBy(own, name));
    }
  }

  lemma {:induction false} PiecesLength(pairs: seq<Pair>)
    ensures |Pieces(pairs)| == |pairs|
  {
    if pairs != [] {
      PiecesLength(pairs[1..]);
    }
  }
}
