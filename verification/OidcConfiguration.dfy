/**
 The configuration a provider binds its protocol state to (oidc/provider.go):
 normalised scopes, accepted algorithms, and the length-prefixed bytes that are
 hashed, shown injective by a decoder that inverts the encoder.
 */
module OidcConfiguration {
  import opened Common
  import opened Bytes
  import opened FixedWidth

  // ---------- Scopes ----------

  const OPENID := Ascii("openid")

  predicate ScopeOk(s: bytes) {
    && 0 < |s| <= 256
    && forall i :: 0 <= i < |s| ==> 0x21 <= s[i] <= 0x7e && s[i] != '"' as int && s[i] != '\\' as int
  }

  /** A scope token in the form of section 3.3 of RFC 6749, of at most 256 characters. */
  lemma ScopeOkExactlyWhen(s: bytes)
    ensures ScopeOk(s) <==>
      && 1 <= |s| <= 256
      && forall i :: 0 <= i < |s| ==> s[i] == 0x21 || 0x23 <= s[i] <= 0x5b || 0x5d <= s[i] <= 0x7e
  {
    assert '"' as int == 0x22 && '\\' as int == 0x5c;
  }

  /** First occurrences, in order. */
  function Dedup(s: seq<bytes>): seq<bytes> {
    if s == [] then []
    else
      var front, last := Dedup(s[..|s| - 1]), s[|s| - 1];
      if last in front then front else front + [last]
  }

  /** None when there are too many scopes or one is malformed. */
  function Normalized(values: seq<bytes>): Option<seq<bytes>> {
    if |values| > 32 || exists v :: v in values && !ScopeOk(v) then None else Some(Dedup([OPENID] + values))
  }

  method NormalizeScopes(values: seq<bytes>) returns (result: Option<seq<bytes>>)
    ensures result == Normalized(values)
  {
    if |values| > 32 {
      return None;
    }
    var scopes, seen := [OPENID], {OPENID};
    assert ([OPENID] + values[..0]) == [OPENID] && [OPENID][..0] == [];
    for i := 0 to |values|
      invariant forall j :: 0 <= j < i ==> ScopeOk(values[j])
      invariant scopes == Dedup([OPENID] + values[..i])
      invariant forall v :: v in seen <==> v in scopes
    {
      var value := values[i];
      assert value in values;
      if |value| == 0 || |value| > 256 {
        assert !ScopeOk(value);
        return None;
      }
      for k := 0 to |value|
        invariant forall l :: 0 <= l < k ==>
                    0x21 <= value[l] <= 0x7e && value[l] != '"' as int && value[l] != '\\' as int
      {
        var b := value[k];
        if b < 0x21 || b > 0x7e || b == '"' as int || b == '\\' as int {
          assert !ScopeOk(value);
          return None;
        }
      }
      var all := [OPENID] + values[..i + 1];
      assert all[..|all| - 1] == [OPENID] + values[..i];
      if value !in seen {
        seen := seen + {value};
        scopes := scopes + [value];
      }
    }
    assert values[..|values|] == values;
    return Some(scopes);
  }

  predicate NoDuplicates(s: seq<bytes>) {
    forall i, j :: 0 <= i < j < |s| ==> s[i] != s[j]
  }

  function FirstIndex(s: seq<bytes>, x: bytes): (i: nat)
    requires x in s
    ensures i < |s| && s[i] == x && x !in s[..i]
  {
    if s[0] == x then 0 else 1 + FirstIndex(s[1..], x)
  }

  lemma {:induction false} FirstIndexInPrefix(s: seq<bytes>, t: seq<bytes>, x: bytes)
    requires x in s
    ensures FirstIndex(s + t, x) == FirstIndex(s, x)
  {
    assert (s + t)[0] == s[0];
    if s[0] != x {
      assert (s + t)[1..] == s[1..] + t;
      FirstIndexInPrefix(s[1..], t, x);
    }
  }

  /** The result is the duplicate-free list of the members, ordered by first occurrence. */
  lemma {:induction false} DedupKeepsFirstOccurrences(s: seq<bytes>)
    ensures NoDuplicates(Dedup(s)) && |Dedup(s)| <= |s|
    ensures forall x :: x in Dedup(s) <==> x in s
    ensures forall i, j :: 0 <= i < j < |Dedup(s)| ==> FirstIndex(s, Dedup(s)[i]) < FirstIndex(s, Dedup(s)[j])
  {
    if s != [] {
      var front, last := s[..|s| - 1], s[|s| - 1];
      assert s == front + [last];
      DedupKeepsFirstOccurrences(front);
      var d := Dedup(front);
      forall x | x in front ensures FirstIndex(s, x) == FirstIndex(front, x) < |front| {
        FirstIndexInPrefix(front, [last], x);
      }
      if last !in d {
        assert FirstIndex(s, last) == |front|;
      }
    }
  }

  lemma {:induction false} DedupOfDistinct(s: seq<bytes>)
    requires NoDuplicates(s)
    ensures Dedup(s) == s
  {
    if s != [] {
      var front := s[..|s| - 1];
      DedupOfDistinct(front);
      assert s == front + [s[|s| - 1]];
    }
  }

  lemma {:induction false} DedupRepeatedHead(x: bytes, s: seq<bytes>)
    requires s != [] && s[0] == x
    ensures Dedup([x] + s) == Dedup(s)
  {
    assert ([x] + s)[..|s|] == [x] + s[..|s| - 1];
    if |s| == 1 {
      assert s == [x] && [x][..0] == [] && [x] + s[..0] == [x];
    } else {
      DedupRepeatedHead(x, s[..|s| - 1]);
    }
  }

  lemma {:induction false} DedupHead(x: bytes, s: seq<bytes>)
    ensures Dedup([x] + s) != [] && Dedup([x] + s)[0] == x
  {
    if s == [] {
      assert [x] + s == [x] && [x][..0] == [];
    } else {
      assert ([x] + s)[..|s|] == [x] + s[..|s| - 1];
      DedupHead(x, s[..|s| - 1]);
    }
  }

  /** openid first, no duplicates, at most 33 scopes, every one acceptable. */
  lemma NormalizedScopesShape(values: seq<bytes>)
    requires Normalized(values).Some?
    ensures var r := Normalized(values).value;
      && r != [] && r[0] == OPENID && NoDuplicates(r) && |r| <= 33
      && (forall x :: x in r <==> x == OPENID || x in values)
      && (forall x :: x in r ==> ScopeOk(x))
  {
    DedupHead(OPENID, values);
    DedupKeepsFirstOccurrences([OPENID] + values);
  }

  /** Normalising again changes nothing, unless the result is itself too long to normalise. */
  lemma NormalizedIsIdempotent(values: seq<bytes>)
    requires Normalized(values).Some?
    ensures var r := Normalized(values).value;
      Normalized(r) == if |r| <= 32 then Some(r) else None
  {
    var r := Normalized(values).value;
    NormalizedScopesShape(values);
    DedupRepeatedHead(OPENID, r);
    DedupOfDistinct(r);
  }

  // ---------- Algorithms ----------

  const ALGORITHMS: seq<bytes> := [
    Ascii("RS256"), Ascii("RS384"), Ascii("RS512"), Ascii("ES256"), Ascii("ES384"), Ascii("ES512"),
    Ascii("PS256"), Ascii("PS384"), Ascii("PS512"), Ascii("EdDSA")]

  /** Byte-wise lexicographic order. */
  predicate Less(a: bytes, b: bytes) {
    if b == [] then false
    else if a == [] then true
    else a[0] < b[0] || (a[0] == b[0] && Less(a[1..], b[1..]))
  }

  lemma {:induction false} LessIsATotalOrder(a: bytes, b: bytes, c: bytes)
    ensures Less(a, b) || a == b || Less(b, a)
    ensures Less(a, b) ==> a != b && !Less(b, a)
    ensures Less(a, b) && Less(b, c) ==> Less(a, c)
  {
    if a != [] && b != [] {
      LessIsATotalOrder(a[1..], b[1..], if c == [] then [] else c[1..]);
      assert a == [a[0]] + a[1..] && b == [b[0]] + b[1..];
    }
  }

  /** Where two strings part: up to `k` they agree, and there the first ends or has the smaller byte. */
  predicate PartsBelow(a: bytes, b: bytes, k: nat) {
    && k <= |a| && k < |b| && a[..k] == b[..k]
    && (k == |a| || a[k] < b[k])
  }

  lemma PartsAtFirst(a: bytes, b: bytes, k: nat)
    requires PartsBelow(a, b, k) && a != []
    ensures a[0] <= b[0]
  {
    if k > 0 {
      assert a[..k][0] == b[..k][0];
    }
  }

  ghost predicate Below(a: bytes, b: bytes) {
    exists k: nat :: PartsBelow(a, b, k)
  }

  /** The order, said without recursion. */
  lemma {:induction false} LessExactlyWhen(a: bytes, b: bytes)
    ensures Less(a, b) <==> Below(a, b)
  {
    if a != [] && b != [] && a[0] == b[0] {
      LessExactlyWhen(a[1..], b[1..]);
      if Less(a[1..], b[1..]) {
        var k: nat :| PartsBelow(a[1..], b[1..], k);
        assert a[..k + 1] == [a[0]] + a[1..][..k] && b[..k + 1] == [b[0]] + b[1..][..k];
        assert PartsBelow(a, b, k + 1);
      }
      forall k: nat | PartsBelow(a, b, k) ensures Less(a[1..], b[1..]) {
        assert k > 0;
        assert a[1..][..k - 1] == a[..k][1..] && b[1..][..k - 1] == b[..k][1..];
        assert PartsBelow(a[1..], b[1..], k - 1);
      }
    } else if b != [] && (a == [] || a[0] < b[0]) {
      assert PartsBelow(a, b, 0);
    } else if a != [] && b != [] {
      forall k: nat ensures !PartsBelow(a, b, k) {
        if PartsBelow(a, b, k) {
          PartsAtFirst(a, b, k);
        }
      }
    }
  }

  predicate Ascending(s: seq<bytes>) {
    forall i, j :: 0 <= i < j < |s| ==> Less(s[i], s[j])
  }

  /** What one insertion of the sort does. */
  function Inserted(s: seq<bytes>, x: bytes): seq<bytes> {
    if s == [] then [x] else if Less(x, s[0]) then [x] + s else [s[0]] + Inserted(s[1..], x)
  }

  function Sorted(s: seq<bytes>): seq<bytes> {
    if s == [] then [] else Inserted(Sorted(s[1..]), s[0])
  }

  lemma {:induction false} InsertedAscends(s: seq<bytes>, x: bytes)
    requires Ascending(s) && x !in s
    ensures Ascending(Inserted(s, x)) && |Inserted(s, x)| == |s| + 1
    ensures forall y :: y in Inserted(s, x) <==> y in s || y == x
  {
    if s != [] {
      LessIsATotalOrder(x, s[0], []);
      if Less(x, s[0]) {
        forall j | 0 <= j < |s| ensures Less(x, s[j]) {
          LessIsATotalOrder(x, s[0], s[j]);
        }
      } else {
        InsertedAscends(s[1..], x);
        var r := Inserted(s[1..], x);
        forall j | 0 <= j < |r| ensures Less(s[0], r[j]) {
          assert r[j] in r;
        }
      }
      assert s == [s[0]] + s[1..];
    }
  }

  lemma {:induction false} SortedAscends(s: seq<bytes>)
    requires NoDuplicates(s)
    ensures Ascending(Sorted(s)) && |Sorted(s)| == |s|
    ensures forall y :: y in Sorted(s) <==> y in s
  {
    if s != [] {
      SortedAscends(s[1..]);
      InsertedAscends(Sorted(s[1..]), s[0]);
      assert s == [s[0]] + s[1..];
    }
  }

  lemma HasMember(s: seq<bytes>)
    ensures s != [] ==> exists x :: x in s
  {
    if s != [] {
      assert s[0] in s;
    }
  }

  /** There is only one ascending list of given members. */
  lemma {:induction false} AscendingIsUnique(a: seq<bytes>, b: seq<bytes>)
    requires Ascending(a) && Ascending(b) && forall x :: x in a <==> x in b
    ensures a == b
  {
    if a == [] {
      HasMember(b);
    } else {
      assert a[0] in b;
      var i :| 0 <= i < |b| && b[i] == a[0];
      assert b[0] in a;
      var j :| 0 <= j < |a| && a[j] == b[0];
      LessIsATotalOrder(a[0], b[0], []);
      assert a[0] == b[0];
      forall x ensures x in a[1..] <==> x in b[1..] {
        TailMembers(a, x);
        TailMembers(b, x);
      }
      AscendingIsUnique(a[1..], b[1..]);
      assert a == [a[0]] + a[1..] && b == [b[0]] + b[1..];
    }
  }

  lemma TailMembers(s: seq<bytes>, x: bytes)
    requires s != [] && Ascending(s)
    ensures x in s[1..] <==> x in s && x != s[0]
  {
    assert s == [s[0]] + s[1..];
    forall j | 1 <= j < |s| ensures s[j] != s[0] {
      LessIsATotalOrder(s[0], s[j], []);
    }
  }

  /** The allowed members of `values`, each once, ascending. */
  ghost predicate IsAccepted(values: seq<bytes>, result: seq<bytes>) {
    && Ascending(result)
    && forall x :: x in result <==> x in values && x in ALGORITHMS
  }

  method AcceptedAlgorithms(values: seq<bytes>) returns (result: seq<bytes>)
    ensures IsAccepted(values, result)
    ensures forall i, j :: 0 <= i < j < |result| ==> Below(result[i], result[j])
  {
    var kept: seq<bytes> := [];
    for i := 0 to |values|
      invariant NoDuplicates(kept)
      invariant forall x :: x in kept <==> x in values[..i] && x in ALGORITHMS
    {
      assert values[..i + 1] == values[..i] + [values[i]];
      if values[i] in ALGORITHMS {
        if values[i] !in kept {
          kept := kept + [values[i]];
        }
      }
    }
    assert values[..|values|] == values;
    SortedAscends(kept);
    result := Sorted(kept);
    forall i, j | 0 <= i < j < |result| ensures Below(result[i], result[j]) {
      LessExactlyWhen(result[i], result[j]);
    }
  }

  /** So the advertised order and repetitions do not matter. */
  lemma AcceptedIsOrderIndependent(a: seq<bytes>, b: seq<bytes>, ra: seq<bytes>, rb: seq<bytes>)
    requires IsAccepted(a, ra) && IsAccepted(b, rb)
    requires forall x :: x in ALGORITHMS ==> (x in a <==> x in b)
    ensures ra == rb
  {
    AscendingIsUnique(ra, rb);
  }

  lemma {:induction false} DistinctMembersFit(s: seq<bytes>, universe: seq<bytes>)
    requires NoDuplicates(s) && forall x :: x in s ==> x in universe
    ensures |s| <= |universe|
  {
    if s != [] {
      var last := |s| - 1;
      assert s[last] in s;
      var i :| 0 <= i < |universe| && universe[i] == s[last];
      var rest := universe[..i] + universe[i + 1..];
      forall x | x in s[..last] ensures x in rest {
        var k :| 0 <= k < last && s[k] == x;
        assert x in s && x != s[last];
        var m :| 0 <= m < |universe| && universe[m] == x;
        assert if m < i then rest[m] == x else rest[m - 1] == x;
      }
      DistinctMembersFit(s[..last], rest);
    }
  }

  lemma AcceptedIsBounded(values: seq<bytes>, result: seq<bytes>)
    requires IsAccepted(values, result)
    ensures |result| <= 10 && forall x :: x in result ==> |x| == 5
  {
    forall i, j | 0 <= i < j < |result| ensures result[i] != result[j] {
      LessIsATotalOrder(result[i], result[j], []);
    }
    DistinctMembersFit(result, ALGORITHMS);
  }

  // ---------- The encoding ----------

  const LIMIT := 0x1_0000_0000

  const PREFIX := Ascii("authcore/oidc/code/v1")

  /** Go's uint32 conversion followed by the big-endian append. */
  function U32(n: nat): (b: bytes)
    ensures |b| == 4
  {
    BigEndian(n % LIMIT, 4)
  }

  function Prefixed(v: bytes): bytes {
    U32(|v|) + v
  }

  function EncodedValues(values: seq<bytes>): bytes {
    if values == [] then [] else EncodedValues(values[..|values| - 1]) + Prefixed(values[|values| - 1])
  }

  function EncodedSection(values: seq<bytes>): bytes {
    U32(|values|) + EncodedValues(values)
  }

  function EncodedSections(sections: seq<seq<bytes>>): bytes {
    if sections == [] then []
    else EncodedSections(sections[..|sections| - 1]) + EncodedSection(sections[|sections| - 1])
  }

  lemma Assoc(a: bytes, b: bytes, c: bytes)
    ensures (a + b) + c == a + (b + c)
  {
  }

  /** The inner loop: one section. */
  method EncodeSection(start: bytes, section: seq<bytes>) returns (encoded: bytes)
    ensures encoded == start + EncodedSection(section)
  {
    encoded := start + U32(|section|);
    ghost var head := encoded;
    assert head + [] == head;
    for j := 0 to |section|
      invariant encoded == head + EncodedValues(section[..j])
    {
      assert section[..j + 1][..j] == section[..j];
      ghost var before := encoded;
      encoded := encoded + U32(|section[j]|);
      encoded := encoded + section[j];
      Assoc(before, U32(|section[j]|), section[j]);
      Assoc(head, EncodedValues(section[..j]), Prefixed(section[j]));
    }
    assert section[..|section|] == section;
    Assoc(start, U32(|section|), EncodedValues(section));
  }

  method EncodeSections(sections: seq<seq<bytes>>) returns (encoded: bytes)
    ensures encoded == PREFIX + EncodedSections(sections)
  {
    encoded := PREFIX;
    assert PREFIX + [] == PREFIX;
    for i := 0 to |sections|
      invariant encoded == PREFIX + EncodedSections(sections[..i])
    {
      assert sections[..i + 1][..i] == sections[..i];
      encoded := EncodeSection(encoded, sections[i]);
      Assoc(PREFIX, EncodedSections(sections[..i]), EncodedSection(sections[i]));
    }
    assert sections[..|sections|] == sections;
  }

  // ---------- The decoder ----------

  function ReadU32(b: bytes): Option<(nat, bytes)> {
    if |b| < 4 then None else Some((Value(b[..4]), b[4..]))
  }

  function ReadValue(b: bytes): Option<(bytes, bytes)> {
    var n := ReadU32(b);
    if n.None? || |n.value.1| < n.value.0 then None
    else Some((n.value.1[..n.value.0], n.value.1[n.value.0..]))
  }

  function ReadValues(b: bytes, count: nat): Option<(seq<bytes>, bytes)> {
    if count == 0 then Some(([], b))
    else
      var first := ReadValue(b);
      if first.None? then None
      else
        var rest := ReadValues(first.value.1, count - 1);
        if rest.None? then None else Some(([first.value.0] + rest.value.0, rest.value.1))
  }

  function ReadSection(b: bytes): Option<(seq<bytes>, bytes)> {
    var n := ReadU32(b);
    if n.None? then None else ReadValues(n.value.1, n.value.0)
  }

  predicate Encodable(values: seq<bytes>) {
    |values| < LIMIT && forall v :: v in values ==> |v| < LIMIT
  }

  lemma U32RoundTrip(n: nat, rest: bytes)
    requires n < LIMIT
    ensures ReadU32(U32(n) + rest) == Some((n, rest))
  {
    assert Pow256(4) == LIMIT by {
      assert Pow256(2) == 0x1_0000 && Pow256(4) == 256 * (256 * Pow256(2));
    }
    ValueInvertsBigEndian(n, 4);
    assert (U32(n) + rest)[..4] == U32(n) && (U32(n) + rest)[4..] == rest;
  }

  lemma ValueRoundTrip(v: bytes, rest: bytes)
    requires |v| < LIMIT
    ensures ReadValue(Prefixed(v) + rest) == Some((v, rest))
  {
    Assoc(U32(|v|), v, rest);
    U32RoundTrip(|v|, v + rest);
    assert (v + rest)[..|v|] == v && (v + rest)[|v|..] == rest;
  }

  lemma {:induction false} EncodedFirst(values: seq<bytes>)
    requires values != []
    ensures EncodedValues(values) == Prefixed(values[0]) + EncodedValues(values[1..])
  {
    if |values| == 1 {
      assert values[..0] == [] && values[1..] == [];
      assert EncodedValues(values) == [] + Prefixed(values[0]) == Prefixed(values[0]) + [];
    } else {
      var front, last := values[..|values| - 1], values[|values| - 1];
      EncodedFirst(front);
      assert front[1..] == values[1..][..|values| - 2];
      Assoc(Prefixed(values[0]), EncodedValues(front[1..]), Prefixed(last));
    }
  }

  lemma {:induction false} ValuesRoundTrip(values: seq<bytes>, rest: bytes)
    requires Encodable(values)
    ensures ReadValues(EncodedValues(values) + rest, |values|) == Some((values, rest))
  {
    if values == [] {
      assert EncodedValues(values) + rest == rest;
    } else {
      EncodedFirst(values);
      ValuesRoundTrip(values[1..], rest);
      var after := EncodedValues(values[1..]) + rest;
      Assoc(Prefixed(values[0]), EncodedValues(values[1..]), rest);
      ValueRoundTrip(values[0], after);
      assert [values[0]] + values[1..] == values;
    }
  }

  /** A section is its count and then, for each value in order, its length and the value. */
  lemma {:induction false} SectionLayout(a: seq<bytes>, b: seq<bytes>, v: bytes)
    ensures EncodedSection(a) == U32(|a|) + EncodedValues(a)
    ensures EncodedValues([]) == [] && EncodedValues([v]) == U32(|v|) + v
    ensures EncodedValues(a + b) == EncodedValues(a) + EncodedValues(b)
    decreases |b|
  {
    assert [v][..0] == [] && EncodedValues([v]) == [] + Prefixed(v) == Prefixed(v);
    if b == [] {
      assert a + b == a;
    } else {
      var front, last := b[..|b| - 1], b[|b| - 1];
      assert (a + b)[..|a + b| - 1] == a + front && (a + b)[|a + b| - 1] == last;
      SectionLayout(a, front, v);
      Assoc(EncodedValues(a), EncodedValues(front), Prefixed(last));
    }
  }

  function Number32(a: int, b: int, c: int, d: int): int {
    a * 0x100_0000 + b * 0x1_0000 + c * 0x100 + d
  }

  lemma FourOctets(b: bytes)
    requires |b| == 4
    ensures Value(b) == Number32(b[0], b[1], b[2], b[3])
  {
    var b3, b2, b1 := b[..3], b[..2], b[..1];
    assert b3[..2] == b2 && b2[..1] == b1 && b1[..0] == [];
    assert Value(b1) == b[0] && Value(b2) == 256 * Value(b1) + b[1] && Value(b3) == 256 * Value(b2) + b[2];
  }

  /** The four bytes of a length, most significant first. */
  lemma U32Octets(n: nat)
    requires n < LIMIT
    ensures Number32(U32(n)[0], U32(n)[1], U32(n)[2], U32(n)[3]) == n
  {
    U32RoundTrip(n, []);
    assert U32(n) + [] == U32(n) && U32(n)[..4] == U32(n);
    FourOctets(U32(n));
  }

  lemma SectionRoundTrip(values: seq<bytes>, rest: bytes)
    requires Encodable(values)
    ensures ReadSection(EncodedSection(values) + rest) == Some((values, rest))
  {
    Assoc(U32(|values|), EncodedValues(values), rest);
    U32RoundTrip(|values|, EncodedValues(values) + rest);
    ValuesRoundTrip(values, rest);
  }

  // ---------- Configurations ----------

  datatype AuthMethod = ClientSecretBasic | ClientSecretPost | PublicClient
  {
    function Text(): bytes {
      match this
      case ClientSecretBasic => Ascii("client_secret_basic")
      case ClientSecretPost => Ascii("client_secret_post")
      case PublicClient => Ascii("none")
    }
  }

  datatype Settings = Settings(
    issuer: bytes, client: bytes, redirect: bytes, authMethod: AuthMethod,
    authorization: bytes, token: bytes, jwks: bytes, scopes: seq<bytes>, algorithms: seq<bytes>)
  {
    function Values(): seq<bytes> {
      [issuer, client, redirect, authMethod.Text(), authorization, token, jwks]
    }

    function Sections(): seq<seq<bytes>> {
      [Values(), scopes, algorithms]
    }
  }

  /** The lengths that the checks before the encoding leave possible. */
  ghost predicate Checked(s: Settings) {
    && 0 < |s.issuer| <= 8192 && 0 < |s.client| <= 4096 && 0 < |s.redirect| <= 8192
    && 0 < |s.authorization| <= 8192 && 0 < |s.token| <= 8192 && 0 < |s.jwks| <= 8192
    && (exists values :: Normalized(values) == Some(s.scopes))
    && (exists values :: IsAccepted(values, s.algorithms))
  }

  lemma ValuesAreEncodable(s: Settings)
    requires Checked(s)
    ensures Encodable(s.Values())
  {
    forall v | v in s.Values() ensures |v| < LIMIT {
    }
  }

  /** No length is truncated by the 32-bit prefixes. */
  lemma CheckedIsEncodable(s: Settings)
    requires Checked(s)
    ensures Encodable(s.Values()) && Encodable(s.scopes) && Encodable(s.algorithms)
  {
    ValuesAreEncodable(s);
    var scopes :| Normalized(scopes) == Some(s.scopes);
    NormalizedScopesShape(scopes);
    var algorithms :| IsAccepted(algorithms, s.algorithms);
    AcceptedIsBounded(algorithms, s.algorithms);
  }

  function Configured(s: Settings): bytes {
    PREFIX + EncodedSections(s.Sections())
  }

  lemma OneMoreSection(sections: seq<seq<bytes>>, last: seq<bytes>)
    ensures EncodedSections(sections + [last]) == EncodedSections(sections) + EncodedSection(last)
  {
    assert (sections + [last])[..|sections|] == sections;
  }

  lemma Regrouped(none: bytes, a: bytes, b: bytes, c: bytes)
    requires none == []
    ensures ((none + a) + b) + c == a + (b + (c + []))
  {
  }

  lemma ThreeSections(a: seq<bytes>, b: seq<bytes>, c: seq<bytes>)
    ensures EncodedSections([a, b, c]) == EncodedSection(a) + (EncodedSection(b) + (EncodedSection(c) + []))
  {
    OneMoreSection([], a);
    OneMoreSection([a], b);
    OneMoreSection([a, b], c);
    assert [] + [a] == [a] && [a] + [b] == [a, b] && [a, b] + [c] == [a, b, c];
    Regrouped(EncodedSections([]), EncodedSection(a), EncodedSection(b), EncodedSection(c));
  }

  /** Reads the three sections back. */
  function Decoded(b: bytes): Option<(seq<bytes>, seq<bytes>, seq<bytes>)> {
    if |b| < |PREFIX| then None
    else
      var x := ReadSection(b[|PREFIX|..]);
      if x.None? then None
      else
        var y := ReadSection(x.value.1);
        if y.None? then None
        else
          var z := ReadSection(y.value.1);
          if z.None? then None else Some((x.value.0, y.value.0, z.value.0))
  }

  lemma DecodedInvertsConfigured(s: Settings)
    requires Checked(s)
    ensures Decoded(Configured(s)) == Some((s.Values(), s.scopes, s.algorithms))
  {
    CheckedIsEncodable(s);
    var sections := s.Sections();
    ThreeSections(s.Values(), s.scopes, s.algorithms);
    assert Configured(s)[|PREFIX|..] == EncodedSections(sections);
    SectionRoundTrip(s.Values(), EncodedSection(s.scopes) + (EncodedSection(s.algorithms) + []));
    SectionRoundTrip(s.scopes, EncodedSection(s.algorithms) + []);
    SectionRoundTrip(s.algorithms, []);
  }

  /** Equal configuration bytes mean equal settings, in every field. */
  lemma ConfiguredIsInjective(a: Settings, b: Settings)
    requires Checked(a) && Checked(b) && Configured(a) == Configured(b)
    ensures a == b
  {
    DecodedInvertsConfigured(a);
    DecodedInvertsConfigured(b);
    var x, y := a.Values(), b.Values();
    assert x[0] == y[0] && x[1] == y[1] && x[2] == y[2] && x[3] == y[3] && x[4] == y[4] && x[5] == y[5] && x[6] == y[6];
  }

  // ---------- Provider construction ----------

  const MAX_CREDENTIAL_BYTES := 16 * 1024

  const DEFAULT_TIMEOUT := 10_000_000_000

  const MINUTE := 60_000_000_000

  const DEFAULT_MAX_RESPONSE_BYTES := 0x10_0000

  datatype Config = Config(
    issuer: bytes, client: bytes, secret: bytes, redirect: bytes, scopes: seq<bytes>, authMethod: bytes,
    timeout: int, maxResponseBytes: int)

  /** What the issuer's discovery document says; `methods` is None when it lists none. */
  datatype Discovery = Discovery(
    issuer: bytes, authorization: bytes, token: bytes, jwks: bytes,
    methods: Option<seq<bytes>>, responseTypes: seq<bytes>, algorithms: seq<bytes>)
  {
    function Methods(): seq<bytes> {
      if methods.None? then [ClientSecretBasic.Text()] else methods.value
    }
  }

  datatype ConfigError = InvalidConfig | DiscoveryFailed | UnsupportedAuthMethod

  /** The method is offered, agrees with there being a secret or not, and is the one asked for if one was. */
  predicate Fits(m: AuthMethod, requested: bytes, secret: bytes, supported: seq<bytes>) {
    && m.Text() in supported && (m.PublicClient? <==> secret == [])
    && (requested == [] || requested == m.Text())
  }

  /** Fails exactly when no method fits; unasked, the basic one goes before the other. */
  method ChooseAuthMethod(requested: bytes, secret: bytes, supported: seq<bytes>) returns (r: Option<AuthMethod>)
    ensures r.None? <==> forall m: AuthMethod :: !Fits(m, requested, secret, supported)
    ensures r.Some? ==> Fits(r.value, requested, secret, supported)
    ensures r == Some(ClientSecretPost) ==> !Fits(ClientSecretBasic, requested, secret, supported)
  {
    var wanted := requested;
    if requested == [] {
      if secret == [] {
        wanted := PublicClient.Text();
      } else if ClientSecretBasic.Text() in supported {
        wanted := ClientSecretBasic.Text();
      } else {
        wanted := ClientSecretPost.Text();
      }
    }
    if wanted !in supported {
      return None;
    }
    if wanted == ClientSecretBasic.Text() && secret != [] {
      assert Fits(ClientSecretBasic, requested, secret, supported);
      return Some(ClientSecretBasic);
    }
    if wanted == ClientSecretPost.Text() && secret != [] {
      assert Fits(ClientSecretPost, requested, secret, supported);
      return Some(ClientSecretPost);
    }
    if wanted == PublicClient.Text() && secret == [] {
      assert Fits(PublicClient, requested, secret, supported);
      return Some(PublicClient);
    }
    return None;
  }

  predicate UrlOk(url: bytes, query: bool, wellFormed: (bytes, bool) -> bool) {
    0 < |url| <= 8192 && wellFormed(url, query)
  }

  predicate ConfigOk(c: Config, wellFormed: (bytes, bool) -> bool, utf8: bytes -> bool) {
    && UrlOk(c.issuer, false, wellFormed) && UrlOk(c.redirect, true, wellFormed)
    && 0 < |c.client| <= 4096 && utf8(c.client) && |c.secret| <= MAX_CREDENTIAL_BYTES
    && 0 <= c.timeout <= MINUTE && 0 <= c.maxResponseBytes <= 16 * 0x10_0000
    && Normalized(c.scopes).Some?
  }

  predicate DiscoveryOk(c: Config, d: Discovery, wellFormed: (bytes, bool) -> bool) {
    && d.issuer == c.issuer
    && UrlOk(d.authorization, true, wellFormed) && UrlOk(d.token, true, wellFormed) && UrlOk(d.jwks, true, wellFormed)
    && Ascii("code") in d.responseTypes
    && exists x :: x in d.algorithms && x in ALGORITHMS
  }

  /** The settings that a configuration and a discovery document lead to. */
  ghost predicate Describes(s: Settings, c: Config, d: Discovery) {
    && (s.issuer, s.client, s.redirect) == (c.issuer, c.client, c.redirect)
    && (s.authorization, s.token, s.jwks) == (d.authorization, d.token, d.jwks)
    && Fits(s.authMethod, c.authMethod, c.secret, d.Methods())
    && (s.authMethod == ClientSecretPost ==> !Fits(ClientSecretBasic, c.authMethod, c.secret, d.Methods()))
    && Normalized(c.scopes) == Some(s.scopes) && IsAccepted(d.algorithms, s.algorithms)
  }

  /** A configuration and a discovery document fix the settings. */
  lemma SettingsAreUnique(a: Settings, b: Settings, c: Config, d: Discovery)
    requires Describes(a, c, d) && Describes(b, c, d)
    ensures a == b
  {
    AcceptedIsOrderIndependent(d.algorithms, d.algorithms, a.algorithms, b.algorithms);
  }

  method EncodeSettings(s: Settings) returns (encoded: bytes)
    ensures encoded == Configured(s)
  {
    encoded := EncodeSections(s.Sections());
  }

  ghost predicate IsConfiguration(encoded: bytes, c: Config, d: Discovery) {
    exists s :: Checked(s) && Describes(s, c, d)
      && encoded == PREFIX + EncodedSections(
           [[c.issuer, c.client, c.redirect, s.authMethod.Text(), d.authorization, d.token, d.jwks], s.scopes, s.algorithms])
  }

  /**
   Provider construction up to the bytes that are hashed. `wellFormed` is the URL syntax check, `utf8`
   the encoding check, and `discovered` the document, if it could be fetched and read.
   */
  method New(c: Config, discovered: Option<Discovery>, wellFormed: (bytes, bool) -> bool, utf8: bytes -> bool)
    returns (r: Result<bytes, ConfigError>)
    ensures r == Err(InvalidConfig) <==> !ConfigOk(c, wellFormed, utf8)
    ensures r == Err(DiscoveryFailed) <==>
      ConfigOk(c, wellFormed, utf8) && (discovered.None? || !DiscoveryOk(c, discovered.value, wellFormed))
    ensures r == Err(UnsupportedAuthMethod) <==>
      && ConfigOk(c, wellFormed, utf8) && discovered.Some? && DiscoveryOk(c, discovered.value, wellFormed)
      && forall m: AuthMethod :: !Fits(m, c.authMethod, c.secret, discovered.value.Methods())
    ensures r.Ok? ==> discovered.Some? && IsConfiguration(r.value, c, discovered.value)
  {
    if !UrlOk(c.issuer, false, wellFormed) || !UrlOk(c.redirect, true, wellFormed)
       || |c.client| == 0 || |c.client| > 4096 || !utf8(c.client) || |c.secret| > MAX_CREDENTIAL_BYTES {
      return Err(InvalidConfig);
    }
    var timeout := if c.timeout == 0 then DEFAULT_TIMEOUT else c.timeout;
    var maxResponseBytes := if c.maxResponseBytes == 0 then DEFAULT_MAX_RESPONSE_BYTES else c.maxResponseBytes;
    if timeout < 0 || timeout > MINUTE || maxResponseBytes < 1 || maxResponseBytes > 16 * 0x10_0000 {
      return Err(InvalidConfig);
    }
    var scopes := NormalizeScopes(c.scopes);
    if scopes.None? {
      return Err(InvalidConfig);
    }
    if discovered.None? {
      return Err(DiscoveryFailed);
    }
    var d := discovered.value;
    if d.issuer != c.issuer
       || !UrlOk(d.authorization, true, wellFormed) || !UrlOk(d.token, true, wellFormed) || !UrlOk(d.jwks, true, wellFormed)
       || Ascii("code") !in d.responseTypes {
      return Err(DiscoveryFailed);
    }
    var algorithms := AcceptedAlgorithms(d.algorithms);
    HasMember(algorithms);
    if algorithms == [] {
      return Err(DiscoveryFailed);
    }
    var chosen := ChooseAuthMethod(c.authMethod, c.secret, d.Methods());
    if chosen.None? {
      return Err(UnsupportedAuthMethod);
    }
    var s := Settings(c.issuer, c.client, c.redirect, chosen.value, d.authorization, d.token, d.jwks, scopes.value, algorithms);
    var encoded := EncodeSettings(s);
    assert Checked(s) && Describes(s, c, d);
    return Ok(encoded);
  }
}
