/**
 Reshaping a validated assertion (saml/assertion.go): nested loops build two
 attribute indexes, specified here as sums over the document's attributes.
 Instants are nanoseconds since the zero time, so an unset instant is 0.
 */
module SamlAssertion {
  import opened Common

  datatype NameID = NameID(value: string, format: string, nameQualifier: string,
                           spNameQualifier: string, spProvidedID: string)

  datatype Conditions = Conditions(notBefore: int, notOnOrAfter: int)

  /** A confirmation without data is None; otherwise its NotOnOrAfter, 0 when unset. */
  datatype Subject = Subject(nameID: Option<NameID>, confirmations: seq<Option<int>>)

  datatype Attribute = Attribute(name: string, friendlyName: string, values: seq<string>)

  /** What the dependency hands over once signature and conditions hold. */
  datatype Accepted = Accepted(
    id: string, issueInstant: int, issuer: string, subject: Option<Subject>, conditions: Option<Conditions>,
    sessionIndexes: seq<string>, statements: seq<seq<Attribute>>)

  datatype Assertion = Assertion(
    id: string, issueInstant: int, issuer: string, nameID: NameID, sessionIndex: string,
    notBefore: int, notOnOrAfter: int,
    attributes: map<string, seq<string>>, attributesByName: map<string, seq<string>>)

  const NO_NAME_ID := NameID("", "", "", "", "")

  // ---------- The declarative index ----------

  /** The attributes of all statements, in document order. */
  function AllAttributes(statements: seq<seq<Attribute>>): seq<Attribute> {
    if statements == [] then [] else AllAttributes(statements[..|statements| - 1]) + statements[|statements| - 1]
  }

  /** The values of every attribute with this Name. */
  function ValuesByName(attrs: seq<Attribute>, key: string): seq<string> {
    if attrs == [] then []
    else
      var last := attrs[|attrs| - 1];
      ValuesByName(attrs[..|attrs| - 1], key) + if last.name == key then last.values else []
  }

  predicate Carries(attr: Attribute, key: string) {
    key != "" && (attr.name == key || attr.friendlyName == key)
  }

  /** The values of every attribute whose Name or FriendlyName is the key, each attribute once. */
  function ValuesByKey(attrs: seq<Attribute>, key: string): seq<string> {
    if attrs == [] then []
    else
      var last := attrs[|attrs| - 1];
      ValuesByKey(attrs[..|attrs| - 1], key) + if Carries(last, key) then last.values else []
  }

  ghost predicate NameOccurs(attrs: seq<Attribute>, key: string) {
    key != "" && exists a :: a in attrs && a.name == key
  }

  ghost predicate KeyOccurs(attrs: seq<Attribute>, key: string) {
    exists a :: a in attrs && Carries(a, key)
  }

  /** The keys are the Names that occur, and each holds the values of the attributes so named. */
  ghost predicate IsNameIndex(index: map<string, seq<string>>, attrs: seq<Attribute>) {
    && (forall key :: key in index <==> NameOccurs(attrs, key))
    && (forall key :: key in index ==> index[key] == ValuesByName(attrs, key))
  }

  /** The keys are the Names and FriendlyNames that occur, and each holds the values of the attributes carrying it. */
  ghost predicate IsKeyIndex(index: map<string, seq<string>>, attrs: seq<Attribute>) {
    && (forall key :: key in index <==> KeyOccurs(attrs, key))
    && (forall key :: key in index ==> index[key] == ValuesByKey(attrs, key))
  }

  /** Two different attributes of the document share a key. */
  ghost predicate Conflict(attrs: seq<Attribute>) {
    exists i, j, key :: 0 <= i < j < |attrs| && Carries(attrs[i], key) && Carries(attrs[j], key)
  }

  /** Values are gathered in document order: those of a first part of the document come first. */
  lemma {:induction false} KeyedInDocumentOrder(a: seq<Attribute>, b: seq<Attribute>, key: string)
    ensures ValuesByKey(a + b, key) == ValuesByKey(a, key) + ValuesByKey(b, key)
    decreases |b|
  {
    if b == [] {
      assert a + b == a;
    } else {
      var front, last := b[..|b| - 1], b[|b| - 1];
      assert a + b == (a + front) + [last] && b == front + [last];
      KeyedInDocumentOrder(a, front, key);
      KeyStep(a + front, last, key);
      KeyStep(front, last, key);
      ConcatAssociates(ValuesByKey(a, key), ValuesByKey(front, key), ValuesByKey([last], key));
      OneAlone(last, key);
    }
  }

  lemma {:induction false} NamedInDocumentOrder(a: seq<Attribute>, b: seq<Attribute>, key: string)
    ensures ValuesByName(a + b, key) == ValuesByName(a, key) + ValuesByName(b, key)
    decreases |b|
  {
    if b == [] {
      assert a + b == a;
    } else {
      var front, last := b[..|b| - 1], b[|b| - 1];
      assert a + b == (a + front) + [last] && b == front + [last];
      NamedInDocumentOrder(a, front, key);
      NameStep(a + front, last, key);
      NameStep(front, last, key);
      ConcatAssociates(ValuesByName(a, key), ValuesByName(front, key), ValuesByName([last], key));
      OneAlone(last, key);
    }
  }

  /** One attribute alone gives its own values, or none. */
  lemma OneAlone(last: Attribute, key: string)
    ensures ValuesByKey([last], key) == if Carries(last, key) then last.values else []
    ensures ValuesByName([last], key) == if last.name == key then last.values else []
  {
    assert [last][..0] == [];
  }

  lemma {:induction false} AttributesInDocumentOrder(a: seq<seq<Attribute>>, b: seq<seq<Attribute>>)
    ensures AllAttributes(a + b) == AllAttributes(a) + AllAttributes(b)
    decreases |b|
  {
    if b == [] {
      assert a + b == a;
    } else {
      var front, last := b[..|b| - 1], b[|b| - 1];
      assert (a + b)[..|a + b| - 1] == a + front && (a + b)[|a + b| - 1] == last;
      AttributesInDocumentOrder(a, front);
      ConcatAssociates(AllAttributes(a), AllAttributes(front), last);
    }
  }

  // ---------- Distinct keys ----------

  function Distinct(keys: seq<string>): seq<string> {
    if keys == [] then []
    else
      var before := Distinct(keys[..|keys| - 1]);
      var last := keys[|keys| - 1];
      if last == "" || last in before then before else before + [last]
  }

  lemma {:induction false} DistinctMembers(keys: seq<string>)
    ensures forall k :: k in Distinct(keys) <==> k in keys && k != ""
    ensures forall i, j :: 0 <= i < j < |Distinct(keys)| ==> Distinct(keys)[i] != Distinct(keys)[j]
  {
    if keys != [] {
      DistinctMembers(keys[..|keys| - 1]);
      assert keys == keys[..|keys| - 1] + [keys[|keys| - 1]];
    }
  }

  /** The distinct keys come in the order of their first occurrences. */
  lemma {:induction false} DistinctInOrder(keys: seq<string>, i: nat, j: nat)
    requires i < j < |Distinct(keys)|
    ensures exists p :: 0 <= p < |keys| && keys[p] == Distinct(keys)[i] && Distinct(keys)[j] !in keys[..p + 1]
  {
    var front := keys[..|keys| - 1];
    DistinctMembers(front);
    DistinctMembers(keys);
    if j < |Distinct(front)| {
      DistinctInOrder(front, i, j);
      var p :| 0 <= p < |front| && front[p] == Distinct(front)[i] && Distinct(front)[j] !in front[..p + 1];
      assert keys[..p + 1] == front[..p + 1];
    } else {
      assert Distinct(front)[i] in front;
      var p :| 0 <= p < |front| && front[p] == Distinct(front)[i];
      assert keys[..p + 1] == front[..p + 1];
    }
  }

  method DedupeKeys(keys: seq<string>) returns (out: seq<string>)
    ensures out == Distinct(keys)
  {
    var seen: set<string> := {};
    out := [];
    for i := 0 to |keys|
      invariant out == Distinct(keys[..i])
      invariant forall k :: k in seen <==> k in out
    {
      assert keys[..i + 1][..i] == keys[..i];
      var k := keys[i];
      if k == "" || k in seen {
        continue;
      }
      seen := seen + {k};
      out := out + [k];
    }
    assert keys[..|keys|] == keys;
  }

  // ---------- Building the indexes ----------

  function ValuesAt(index: map<string, seq<string>>, key: string): seq<string> {
    if key in index then index[key] else []
  }

  function Appended(index: map<string, seq<string>>, keys: seq<string>, values: seq<string>): map<string, seq<string>> {
    if keys == [] then index
    else
      var rest := Appended(index, keys[..|keys| - 1], values);
      var last := keys[|keys| - 1];
      rest[last := ValuesAt(rest, last) + values]
  }

  /** Appending under distinct keys adds the values once under each, and changes no other key. */
  lemma {:induction false} AppendedValues(index: map<string, seq<string>>, keys: seq<string>, values: seq<string>, k: string)
    requires forall i, j :: 0 <= i < j < |keys| ==> keys[i] != keys[j]
    ensures k in Appended(index, keys, values) <==> k in index || k in keys
    ensures ValuesAt(Appended(index, keys, values), k) == ValuesAt(index, k) + if k in keys then values else []
  {
    if keys == [] {
      assert ValuesAt(index, k) + [] == ValuesAt(index, k);
    } else {
      var front, last := keys[..|keys| - 1], keys[|keys| - 1];
      AppendedValues(index, front, values, k);
      AppendedValues(index, front, values, last);
      assert last !in front;
      assert k in keys <==> k in front || k == last;
      assert ValuesAt(index, last) + [] == ValuesAt(index, last);
    }
  }

  lemma KeyStep(attrs: seq<Attribute>, a: Attribute, key: string)
    ensures KeyOccurs(attrs + [a], key) <==> KeyOccurs(attrs, key) || Carries(a, key)
    ensures ValuesByKey(attrs + [a], key) == ValuesByKey(attrs, key) + if Carries(a, key) then a.values else []
    ensures !KeyOccurs(attrs, key) ==> ValuesByKey(attrs, key) == []
  {
    assert (attrs + [a])[..|attrs|] == attrs;
    assert Carries(a, key) ==> a in attrs + [a];
    assert forall b :: b in attrs ==> b in attrs + [a];
    if !KeyOccurs(attrs, key) {
      NoCarrierNoValues(attrs, key);
    }
  }

  lemma NameStep(attrs: seq<Attribute>, a: Attribute, key: string)
    ensures NameOccurs(attrs + [a], key) <==> NameOccurs(attrs, key) || (key != "" && a.name == key)
    ensures ValuesByName(attrs + [a], key) == ValuesByName(attrs, key) + if a.name == key then a.values else []
    ensures key != "" && !NameOccurs(attrs, key) ==> ValuesByName(attrs, key) == []
  {
    assert (attrs + [a])[..|attrs|] == attrs;
    assert a in attrs + [a];
    assert forall b :: b in attrs ==> b in attrs + [a];
    if key != "" && !NameOccurs(attrs, key) {
      NoNameNoValues(attrs, key);
    }
  }

  lemma KeyIndexAt(index: map<string, seq<string>>, attrs: seq<Attribute>, a: Attribute, keys: seq<string>, key: string)
    requires key in index <==> KeyOccurs(attrs, key)
    requires key in index ==> index[key] == ValuesByKey(attrs, key)
    requires key in keys <==> Carries(a, key)
    requires forall i, j :: 0 <= i < j < |keys| ==> keys[i] != keys[j]
    ensures var next := Appended(index, keys, a.values);
      && (key in next <==> KeyOccurs(attrs + [a], key))
      && (key in next ==> next[key] == ValuesByKey(attrs + [a], key))
  {
    KeyStep(attrs, a, key);
    AppendedValues(index, keys, a.values, key);
    assert ValuesAt(index, key) == ValuesByKey(attrs, key);
  }

  lemma KeyIndexExtended(index: map<string, seq<string>>, attrs: seq<Attribute>, a: Attribute)
    requires IsKeyIndex(index, attrs)
    ensures IsKeyIndex(Appended(index, Distinct([a.name, a.friendlyName]), a.values), attrs + [a])
  {
    var keys := Distinct([a.name, a.friendlyName]);
    DistinctMembers([a.name, a.friendlyName]);
    forall key
      ensures key in Appended(index, keys, a.values) <==> KeyOccurs(attrs + [a], key)
      ensures key in Appended(index, keys, a.values) ==> Appended(index, keys, a.values)[key] == ValuesByKey(attrs + [a], key)
    {
      KeyIndexAt(index, attrs, a, keys, key);
    }
  }

  lemma {:induction false} NoCarrierNoValues(attrs: seq<Attribute>, key: string)
    requires !KeyOccurs(attrs, key)
    ensures ValuesByKey(attrs, key) == []
  {
    if attrs != [] {
      NoCarrierNoValues(attrs[..|attrs| - 1], key);
    }
  }

  lemma {:induction false} NoNameNoValues(attrs: seq<Attribute>, key: string)
    requires key != "" && !NameOccurs(attrs, key)
    ensures ValuesByName(attrs, key) == []
  {
    if attrs != [] {
      NoNameNoValues(attrs[..|attrs| - 1], key);
    }
  }

  lemma NameIndexExtended(index: map<string, seq<string>>, attrs: seq<Attribute>, a: Attribute)
    requires IsNameIndex(index, attrs)
    ensures IsNameIndex(if a.name == "" then index else index[a.name := ValuesAt(index, a.name) + a.values], attrs + [a])
  {
    var next := if a.name == "" then index else index[a.name := ValuesAt(index, a.name) + a.values];
    forall key
      ensures key in next <==> NameOccurs(attrs + [a], key)
      ensures key in next ==> next[key] == ValuesByName(attrs + [a], key)
    {
      NameStep(attrs, a, key);
    }
  }

  ghost predicate Seen(seen: set<string>, attrs: seq<Attribute>) {
    forall k :: k in seen <==> KeyOccurs(attrs, k)
  }

  lemma ConflictFound(attrs: seq<Attribute>, a: Attribute, rest: seq<Attribute>, seen: set<string>, key: string)
    requires Seen(seen, attrs) && key in seen && Carries(a, key)
    ensures Conflict(attrs + [a] + rest)
  {
    var b :| b in attrs && Carries(b, key);
    var i :| 0 <= i < |attrs| && attrs[i] == b;
    var all := attrs + [a] + rest;
    assert all[i] == b && all[|attrs|] == a;
  }

  lemma ConflictIsNew(attrs: seq<Attribute>, a: Attribute)
    requires Conflict(attrs + [a])
    ensures Conflict(attrs) || exists k :: Carries(a, k) && KeyOccurs(attrs, k)
  {
    var all := attrs + [a];
    var i, j, key :| 0 <= i < j < |all| && Carries(all[i], key) && Carries(all[j], key);
    assert attrs[i] == all[i] && attrs[i] in attrs;
    if j < |attrs| {
      assert attrs[j] == all[j];
    } else {
      assert Carries(a, key) && KeyOccurs(attrs, key);
    }
  }

  lemma {:induction false} AllAttributesSplit(statements: seq<seq<Attribute>>, i: nat, j: nat)
    requires i < |statements| && j < |statements[i]|
    ensures exists rest :: AllAttributes(statements)
                        == AllAttributes(statements[..i]) + statements[i][..j] + [statements[i][j]] + rest
  {
    var last := |statements| - 1;
    if i == last {
      assert statements[i] == statements[i][..j] + [statements[i][j]] + statements[i][j + 1..];
      var head := AllAttributes(statements[..i]);
      assert AllAttributes(statements) == head + statements[i][..j] + [statements[i][j]] + statements[i][j + 1..];
    } else {
      var front := statements[..last];
      AllAttributesSplit(front, i, j);
      assert front[..i] == statements[..i];
      var head := AllAttributes(statements[..i]) + statements[i][..j] + [statements[i][j]];
      var rest :| AllAttributes(front) == head + rest;
      assert AllAttributes(statements) == head + (rest + statements[last]);
    }
  }

  /** The first index that is not empty, or the empty string when there is none. */
  ghost predicate IsFirstNonEmpty(indexes: seq<string>, index: string) {
    if index == "" then forall i :: 0 <= i < |indexes| ==> indexes[i] == ""
    else exists i :: 0 <= i < |indexes| && indexes[i] == index && forall j :: 0 <= j < i ==> indexes[j] == ""
  }

  method FirstSessionIndex(indexes: seq<string>) returns (index: string)
    ensures IsFirstNonEmpty(indexes, index)
  {
    for i := 0 to |indexes|
      invariant forall j :: 0 <= j < i ==> indexes[j] == ""
    {
      if indexes[i] != "" {
        return indexes[i];
      }
    }
    return "";
  }

  /** The innermost loop: appends under each key; fails when a key was already seen and the policy is strict. */
  method IndexUnder(index: map<string, seq<string>>, seen: set<string>, keys: seq<string>, values: seq<string>, strict: bool)
    returns (ok: bool, index': map<string, seq<string>>, seen': set<string>)
    requires forall i, j :: 0 <= i < j < |keys| ==> keys[i] != keys[j]
    ensures ok <==> !strict || forall k :: k in keys ==> k !in seen
    ensures ok ==> index' == Appended(index, keys, values)
    ensures ok && strict ==> forall k :: k in seen' <==> k in seen || k in keys
  {
    index', seen' := index, seen;
    for n := 0 to |keys|
      invariant index' == Appended(index, keys[..n], values)
      invariant strict ==> forall k :: k in seen' <==> k in seen || k in keys[..n]
      invariant strict ==> forall k :: k in keys[..n] ==> k !in seen
    {
      var key := keys[n];
      assert keys[..n + 1][..n] == keys[..n];
      assert keys[..n + 1] == keys[..n] + [key];
      if strict {
        if key in seen' {
          assert key in keys;
          return false, index', seen';
        }
        seen' := seen' + {key};
      }
      index' := index'[key := ValuesAt(index', key) + values];
    }
    assert keys[..|keys|] == keys;
    return true, index', seen';
  }

  /** Adds one attribute to the merged index, once under each of its keys. */
  method IndexAttribute(index: map<string, seq<string>>, seen: set<string>, attr: Attribute, strict: bool)
    returns (ok: bool, index': map<string, seq<string>>, seen': set<string>)
    ensures ok <==> !strict || forall k :: Carries(attr, k) ==> k !in seen
    ensures ok ==> index' == Appended(index, Distinct([attr.name, attr.friendlyName]), attr.values)
    ensures ok && strict ==> forall k :: k in seen' <==> k in seen || Carries(attr, k)
  {
    var keys := DedupeKeys([attr.name, attr.friendlyName]);
    DistinctMembers([attr.name, attr.friendlyName]);
    assert forall k :: Carries(attr, k) <==> k in keys;
    ok, index', seen' := IndexUnder(index, seen, keys, attr.values, strict);
  }

  /** What holds of the loop variables once the attributes `done` are indexed. */
  ghost predicate Indexed(byKey: map<string, seq<string>>, byName: map<string, seq<string>>, seen: set<string>,
                          strict: bool, done: seq<Attribute>) {
    IsKeyIndex(byKey, done) && IsNameIndex(byName, done) && (strict ==> Seen(seen, done) && !Conflict(done))
  }

  /** One round of the inner loop. */
  method IndexNext(byKey: map<string, seq<string>>, byName: map<string, seq<string>>, seen: set<string>,
                   attr: Attribute, strict: bool, ghost done: seq<Attribute>)
    returns (ok: bool, byKey': map<string, seq<string>>, byName': map<string, seq<string>>, seen': set<string>)
    requires Indexed(byKey, byName, seen, strict, done)
    ensures ok ==> Indexed(byKey', byName', seen', strict, done + [attr])
    ensures !ok ==> strict && forall rest :: Conflict(done + [attr] + rest)
  {
    NameIndexExtended(byName, done, attr);
    KeyIndexExtended(byKey, done, attr);
    byName' := if attr.name == "" then byName else byName[attr.name := ValuesAt(byName, attr.name) + attr.values];
    ok, byKey', seen' := IndexAttribute(byKey, seen, attr, strict);
    if !ok {
      var key :| Carries(attr, key) && key in seen;
      forall rest ensures Conflict(done + [attr] + rest) {
        ConflictFound(done, attr, rest, seen, key);
      }
    } else if strict {
      if Conflict(done + [attr]) {
        ConflictIsNew(done, attr);
      }
      forall k ensures KeyOccurs(done + [attr], k) <==> KeyOccurs(done, k) || Carries(attr, k) {
        KeyStep(done, attr, k);
      }
    }
  }

  /** Every field of `out` is the one that `a` states; what `a` leaves out is empty. */
  ghost predicate IsReshaped(a: Accepted, out: Assertion) {
    && out.id == a.id && out.issueInstant == a.issueInstant && out.issuer == a.issuer
    && out.nameID == (if a.subject.Some? && a.subject.value.nameID.Some? then a.subject.value.nameID.value else NO_NAME_ID)
    && IsFirstNonEmpty(a.sessionIndexes, out.sessionIndex)
    && out.notBefore == (if a.conditions.Some? then a.conditions.value.notBefore else 0)
    && out.notOnOrAfter == (if a.conditions.Some? then a.conditions.value.notOnOrAfter else 0)
    && IsKeyIndex(out.attributes, AllAttributes(a.statements))
    && IsNameIndex(out.attributesByName, AllAttributes(a.statements))
  }

  /** So an accepted assertion has one reshaping. */
  lemma ReshapingIsUnique(a: Accepted, x: Assertion, y: Assertion)
    requires IsReshaped(a, x) && IsReshaped(a, y)
    ensures x == y
  {
  }

  /** And it always has one. */
  lemma ReshapingExists(a: Accepted) returns (out: Assertion)
    ensures IsReshaped(a, out)
  {
    var attrs := AllAttributes(a.statements);
    var byKey := KeyIndexExists(attrs);
    var byName := NameIndexExists(attrs);
    var session := FirstNonEmptyExists(a.sessionIndexes);
    var nameID := if a.subject.Some? && a.subject.value.nameID.Some? then a.subject.value.nameID.value else NO_NAME_ID;
    var c := if a.conditions.Some? then a.conditions.value else Conditions(0, 0);
    out := Assertion(a.id, a.issueInstant, a.issuer, nameID, session, c.notBefore, c.notOnOrAfter, byKey, byName);
  }

  lemma {:induction false} KeyIndexExists(attrs: seq<Attribute>) returns (index: map<string, seq<string>>)
    ensures IsKeyIndex(index, attrs)
  {
    if attrs == [] {
      index := map[];
    } else {
      var front, last := attrs[..|attrs| - 1], attrs[|attrs| - 1];
      index := KeyIndexExists(front);
      KeyIndexExtended(index, front, last);
      assert attrs == front + [last];
      index := Appended(index, Distinct([last.name, last.friendlyName]), last.values);
    }
  }

  lemma {:induction false} NameIndexExists(attrs: seq<Attribute>) returns (index: map<string, seq<string>>)
    ensures IsNameIndex(index, attrs)
  {
    if attrs == [] {
      index := map[];
    } else {
      var front, last := attrs[..|attrs| - 1], attrs[|attrs| - 1];
      index := NameIndexExists(front);
      NameIndexExtended(index, front, last);
      assert attrs == front + [last];
      index := if last.name == "" then index else index[last.name := ValuesAt(index, last.name) + last.values];
    }
  }

  lemma {:induction false} FirstNonEmptyExists(indexes: seq<string>) returns (index: string)
    ensures IsFirstNonEmpty(indexes, index)
  {
    if indexes == [] {
      index := "";
    } else if indexes[0] != "" {
      index := indexes[0];
    } else {
      index := FirstNonEmptyExists(indexes[1..]);
      assert forall j :: 1 <= j < |indexes| ==> indexes[j] == indexes[1..][j - 1];
      if index != "" {
        var i :| 0 <= i < |indexes[1..]| && indexes[1..][i] == index && forall j :: 0 <= j < i ==> indexes[1..][j] == "";
        assert indexes[i + 1] == index;
      }
    }
  }

  method AssertionFromAccepted(a: Accepted, strict: bool) returns (r: Result<Assertion, ()>)
    ensures r.Err? <==> strict && Conflict(AllAttributes(a.statements))
    ensures r.Ok? ==> IsReshaped(a, r.value)
  {
    var session := FirstSessionIndex(a.sessionIndexes);
    var byKey: map<string, seq<string>>, byName: map<string, seq<string>> := map[], map[];
    var seen: set<string> := {};
    ghost var done: seq<Attribute> := [];
    for i := 0 to |a.statements|
      invariant done == AllAttributes(a.statements[..i])
      invariant Indexed(byKey, byName, seen, strict, done)
    {
      var attrs := a.statements[i];
      for j := 0 to |attrs|
        invariant done == AllAttributes(a.statements[..i]) + attrs[..j]
        invariant Indexed(byKey, byName, seen, strict, done)
      {
        var ok;
        ok, byKey, byName, seen := IndexNext(byKey, byName, seen, attrs[j], strict, done);
        if !ok {
          AllAttributesSplit(a.statements, i, j);
          return Err(());
        }
        assert attrs[..j + 1] == attrs[..j] + [attrs[j]];
        done := done + [attrs[j]];
      }
      assert attrs[..|attrs|] == attrs;
      assert a.statements[..i + 1][..i] == a.statements[..i];
    }
    assert a.statements[..|a.statements|] == a.statements;
    var nameID := if a.subject.Some? && a.subject.value.nameID.Some? then a.subject.value.nameID.value else NO_NAME_ID;
    var (notBefore, notOnOrAfter) :=
      if a.conditions.Some? then (a.conditions.value.notBefore, a.conditions.value.notOnOrAfter) else (0, 0);
    return Ok(Assertion(a.id, a.issueInstant, a.issuer, nameID, session, notBefore, notOnOrAfter, byKey, byName));
  }

  /** Without a conflict every key has exactly one source, and its values are that attribute's values. */
  lemma {:induction false} EachKeyHasOneSource(attrs: seq<Attribute>, key: string)
    requires !Conflict(attrs) && KeyOccurs(attrs, key)
    ensures exists i :: 0 <= i < |attrs| && Carries(attrs[i], key) && ValuesByKey(attrs, key) == attrs[i].values
                        && forall j :: 0 <= j < |attrs| && Carries(attrs[j], key) ==> j == i
  {
    var a :| a in attrs && Carries(a, key);
    var i :| 0 <= i < |attrs| && attrs[i] == a;
    forall j | 0 <= j < |attrs| && Carries(attrs[j], key) ensures j == i {
    }
    OneCarrier(attrs, key, i);
  }

  lemma {:induction false} OneCarrier(attrs: seq<Attribute>, key: string, i: nat)
    requires i < |attrs| && Carries(attrs[i], key)
    requires forall j :: 0 <= j < |attrs| && Carries(attrs[j], key) ==> j == i
    ensures ValuesByKey(attrs, key) == attrs[i].values
  {
    var front := attrs[..|attrs| - 1];
    if i == |attrs| - 1 {
      forall a | a in front ensures !Carries(a, key) {
        var j :| 0 <= j < |front| && front[j] == a;
        assert attrs[j] == a;
      }
      NoCarrierNoValues(front, key);
    } else {
      OneCarrier(front, key, i);
    }
  }
}
