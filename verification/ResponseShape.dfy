/**
 The two scanners of saml/rawxml.go: one reports the top-level structure of a
 response with a depth counter, the other looks for disallowed algorithms
 anywhere. Both stop silently when the decoder stops, for whatever reason.
 */
module ResponseShape {
  import opened Common
  import opened XmlDocument
  import IdentityShape

  const ALLOWED_SIGNATURE_METHODS: set<string> := {
    "http://www.w3.org/2001/04/xmldsig-more#rsa-sha256",
    "http://www.w3.org/2001/04/xmldsig-more#rsa-sha384",
    "http://www.w3.org/2001/04/xmldsig-more#rsa-sha512",
    "http://www.w3.org/2001/04/xmldsig-more#ecdsa-sha256",
    "http://www.w3.org/2001/04/xmldsig-more#ecdsa-sha384",
    "http://www.w3.org/2001/04/xmldsig-more#ecdsa-sha512"
  }

  const ALLOWED_DIGEST_METHODS: set<string> := {
    "http://www.w3.org/2001/04/xmlenc#sha256",
    "http://www.w3.org/2001/04/xmldsig-more#sha384",
    "http://www.w3.org/2001/04/xmlenc#sha512"
  }

  datatype Shape = Shape(rootIsResponse: bool, destination: string, hasDestination: bool,
                         assertions: nat, hasEncrypted: bool)

  const NO_SHAPE := Shape(false, "", false, 0, false)

  datatype ShapeError = RootIsNotResponse(local: string) | NoRoot

  // ---------- The structure of a tree ----------

  predicate IsAssertion(e: Element) {
    e.name.space == IdentityShape.ASSERTION_NS && (e.name.local == "Assertion" || e.name.local == "EncryptedAssertion")
  }

  /** The plain and encrypted assertions directly under the roots. */
  function Assertions(f: Forest): seq<Element> {
    Filter(Grandchildren(f), IsAssertion)
  }

  predicate AnyEncrypted(es: seq<Element>) {
    exists e :: e in es && e.name.local == "EncryptedAssertion"
  }

  function RootAttrs(f: Forest): seq<Attr> {
    match f
    case Nil => []
    case Text(tail) => RootAttrs(tail)
    case Cons(e, tail) => e.attrs + RootAttrs(tail)
  }

  /** The value of the last attribute locally named Destination. */
  function LastDestination(attrs: seq<Attr>): Option<string> {
    if attrs == [] then None
    else if attrs[|attrs| - 1].name.local == "Destination" then Some(attrs[|attrs| - 1].value)
    else LastDestination(attrs[..|attrs| - 1])
  }

  function FirstNonResponse(f: Forest): Option<string> {
    match f
    case Nil => None
    case Text(tail) => FirstNonResponse(tail)
    case Cons(e, tail) => if e.name.local != "Response" then Some(e.name.local) else FirstNonResponse(tail)
  }

  /** The shape of a whole document, added to one already gathered. */
  function Extended(shape: Shape, f: Forest): Shape {
    var destination := LastDestination(RootAttrs(f));
    Shape(shape.rootIsResponse || Children(f) != [],
          if destination.Some? then destination.value else shape.destination,
          shape.hasDestination || destination.Some?,
          shape.assertions + |Assertions(f)|,
          shape.hasEncrypted || AnyEncrypted(Assertions(f)))
  }

  /** The shape of a complete document, or the first reason it has none. */
  function TreeShape(f: Forest): Result<Shape, ShapeError> {
    if FirstNonResponse(f).Some? then Err(RootIsNotResponse(FirstNonResponse(f).value))
    else if Children(f) == [] then Err(NoRoot)
    else Ok(Extended(NO_SHAPE, f))
  }

  // ---------- The shape scanner ----------

  function WithDestination(shape: Shape, attrs: seq<Attr>): Shape {
    if attrs == [] then shape
    else
      var rest := WithDestination(shape, attrs[..|attrs| - 1]);
      var last := attrs[|attrs| - 1];
      if last.name.local == "Destination" then rest.(hasDestination := true, destination := last.value) else rest
  }

  function Scan(tokens: seq<Token>, depth: int, shape: Shape): Result<Shape, ShapeError> {
    if tokens == [] then Ok(shape)
    else match tokens[0]
      case Misc => Scan(tokens[1..], depth, shape)
      case End(_) => Scan(tokens[1..], depth - 1, shape)
      case Start(name, attrs) =>
        if depth == 0 && name.local != "Response" then Err(RootIsNotResponse(name.local))
        else if depth == 0 then Scan(tokens[1..], 1, WithDestination(shape.(rootIsResponse := true), attrs))
        else if depth == 1 && IsAssertion(Element(name, attrs, Nil)) then
          Scan(tokens[1..], 2, shape.(assertions := shape.assertions + 1,
                                      hasEncrypted := shape.hasEncrypted || name.local == "EncryptedAssertion"))
        else Scan(tokens[1..], depth + 1, shape)
  }

  function ShapeOf(tokens: seq<Token>): Result<Shape, ShapeError> {
    var r := Scan(tokens, 0, NO_SHAPE);
    if r.Ok? && !r.value.rootIsResponse then Err(NoRoot) else r
  }

  method ScanResponseShape(s: Stream) returns (r: Result<Shape, ShapeError>)
    ensures r == ShapeOf(s.tokens)
    ensures forall f :: s.tokens == Flatten(f) ==> r == TreeShape(f)
  {
    forall f | s.tokens == Flatten(f) ensures ShapeOf(s.tokens) == TreeShape(f) {
      ScannerReportsTreeShape(f);
    }
    var shape := NO_SHAPE;
    var depth := 0;
    var i := 0;
    while i < |s.tokens|
      invariant 0 <= i <= |s.tokens|
      invariant Scan(s.tokens, 0, NO_SHAPE) == Scan(s.tokens[i..], depth, shape)
    {
      assert s.tokens[i..][1..] == s.tokens[i + 1..];
      match s.tokens[i] {
      case Start(name, attrs) =>
        depth := depth + 1;
        if depth == 1 {
          if name.local != "Response" {
            return Err(RootIsNotResponse(name.local));
          }
          shape := shape.(rootIsResponse := true);
          ghost var before := shape;
          for j := 0 to |attrs|
            invariant shape == WithDestination(before, attrs[..j])
          {
            assert attrs[..j + 1][..j] == attrs[..j];
            if attrs[j].name.local == "Destination" {
              shape := shape.(hasDestination := true, destination := attrs[j].value);
            }
          }
          assert attrs[..|attrs|] == attrs;
        }
        if depth == 2 && name.space == IdentityShape.ASSERTION_NS
           && (name.local == "Assertion" || name.local == "EncryptedAssertion") {
          shape := shape.(assertions := shape.assertions + 1);
          if name.local == "EncryptedAssertion" {
            shape := shape.(hasEncrypted := true);
          }
        }
      case End(_) =>
        depth := depth - 1;
      case Misc =>
      }
      i := i + 1;
    }
    if !shape.rootIsResponse {
      return Err(NoRoot);
    }
    return Ok(shape);
  }

  /** A Destination with this value, and none after it. */
  lemma {:induction false} LastDestinationIsLast(attrs: seq<Attr>)
    ensures var d := LastDestination(attrs);
      if d.Some? then exists i :: 0 <= i < |attrs| && attrs[i].name.local == "Destination" && attrs[i].value == d.value
                        && forall j :: i < j < |attrs| ==> attrs[j].name.local != "Destination"
      else forall i :: 0 <= i < |attrs| ==> attrs[i].name.local != "Destination"
  {
    if attrs != [] && attrs[|attrs| - 1].name.local != "Destination" {
      LastDestinationIsLast(attrs[..|attrs| - 1]);
    }
  }

  lemma {:induction false} DestinationIsLast(shape: Shape, attrs: seq<Attr>)
    ensures WithDestination(shape, attrs)
         == var d := LastDestination(attrs);
            if d.Some? then shape.(hasDestination := true, destination := d.value) else shape
  {
    if attrs != [] {
      DestinationIsLast(shape, attrs[..|attrs| - 1]);
    }
  }

  lemma {:induction false} LastDestinationConcat(a: seq<Attr>, b: seq<Attr>)
    ensures LastDestination(a + b) == if LastDestination(b).Some? then LastDestination(b) else LastDestination(a)
  {
    if b == [] {
      assert a + b == a;
    } else {
      assert (a + b)[..|a + b| - 1] == a + b[..|b| - 1];
      LastDestinationConcat(a, b[..|b| - 1]);
    }
  }

  lemma ScanElement(e: Element, tail: Forest, rest: seq<Token>, depth: int, shape: Shape)
    ensures Scan(Flatten(Cons(e, tail)) + rest, depth, shape)
         == Scan([Start(e.name, e.attrs)] + (Flatten(e.kids) + ([End(e.name)] + (Flatten(tail) + rest))), depth, shape)
    ensures forall sh :: Scan([End(e.name)] + (Flatten(tail) + rest), depth + 1, sh) == Scan(Flatten(tail) + rest, depth, sh)
  {
    FlattenCons(e, tail, rest);
  }

  lemma ScanText(tail: Forest, rest: seq<Token>, depth: int, shape: Shape)
    ensures Scan(Flatten(Text(tail)) + rest, depth, shape) == Scan(Flatten(tail) + rest, depth, shape)
  {
    assert Flatten(Text(tail)) + rest == [Misc] + (Flatten(tail) + rest);
  }

  lemma {:induction false} DeepForest(f: Forest, rest: seq<Token>, depth: int, shape: Shape)
    requires depth >= 2
    ensures Scan(Flatten(f) + rest, depth, shape) == Scan(rest, depth, shape)
    decreases f
  {
    match f
    case Nil => assert Flatten(f) + rest == rest;
    case Text(tail) =>
      ScanText(tail, rest, depth, shape);
      DeepForest(tail, rest, depth, shape);
    case Cons(e, tail) =>
      ScanElement(e, tail, rest, depth, shape);
      DeepForest(e.kids, [End(e.name)] + (Flatten(tail) + rest), depth + 1, shape);
      DeepForest(tail, rest, depth, shape);
  }

  function WithAssertions(shape: Shape, es: seq<Element>): Shape {
    shape.(assertions := shape.assertions + |es|, hasEncrypted := shape.hasEncrypted || AnyEncrypted(es))
  }

  lemma WithAssertionsConcat(shape: Shape, a: seq<Element>, b: seq<Element>)
    ensures WithAssertions(WithAssertions(shape, a), b) == WithAssertions(shape, a + b)
  {
    assert forall e :: e in a + b <==> e in a || e in b;
  }

  lemma {:induction false} RootKids(f: Forest, rest: seq<Token>, shape: Shape)
    ensures Scan(Flatten(f) + rest, 1, shape)
         == Scan(rest, 1, WithAssertions(shape, Filter(Children(f), IsAssertion)))
    decreases f
  {
    match f
    case Nil => assert Flatten(f) + rest == rest;
    case Text(tail) =>
      ScanText(tail, rest, 1, shape);
      RootKids(tail, rest, shape);
    case Cons(e, tail) =>
      ScanElement(e, tail, rest, 1, shape);
      var one := if IsAssertion(e) then [e] else [];
      var after := WithAssertions(shape, one);
      DeepForest(e.kids, [End(e.name)] + (Flatten(tail) + rest), 2, after);
      RootKids(tail, rest, after);
      assert Children(f)[1..] == Children(tail);
      WithAssertionsConcat(shape, one, Filter(Children(tail), IsAssertion));
      assert Filter(Children(f), IsAssertion) == one + Filter(Children(tail), IsAssertion);
  }

  lemma ExtendedByRoot(shape: Shape, e: Element, tail: Forest)
    ensures Extended(shape, Cons(e, tail))
         == Extended(WithAssertions(WithDestination(shape.(rootIsResponse := true), e.attrs),
                                    Filter(Children(e.kids), IsAssertion)), tail)
  {
    DestinationIsLast(shape.(rootIsResponse := true), e.attrs);
    LastDestinationConcat(e.attrs, RootAttrs(tail));
    FilterConcat(Children(e.kids), Grandchildren(tail), IsAssertion);
    var mine := Filter(Children(e.kids), IsAssertion);
    assert forall x :: x in mine + Assertions(tail) <==> x in mine || x in Assertions(tail);
  }

  lemma {:induction false} RootsScan(f: Forest, rest: seq<Token>, shape: Shape)
    ensures Scan(Flatten(f) + rest, 0, shape)
         == if FirstNonResponse(f).Some? then Err(RootIsNotResponse(FirstNonResponse(f).value))
            else Scan(rest, 0, Extended(shape, f))
    decreases f
  {
    match f
    case Nil =>
      assert Flatten(f) + rest == rest;
      assert Extended(shape, f) == shape;
    case Text(tail) =>
      ScanText(tail, rest, 0, shape);
      RootsScan(tail, rest, shape);
      assert Extended(shape, f) == Extended(shape, tail);
    case Cons(e, tail) =>
      ScanElement(e, tail, rest, 0, shape);
      if e.name.local == "Response" {
        var inRoot := WithDestination(shape.(rootIsResponse := true), e.attrs);
        RootKids(e.kids, [End(e.name)] + (Flatten(tail) + rest), inRoot);
        RootsScan(tail, rest, WithAssertions(inRoot, Filter(Children(e.kids), IsAssertion)));
        ExtendedByRoot(shape, e, tail);
      }
  }

  /** On every complete document the scanner reports the declarative shape, errors included. */
  lemma ScannerReportsTreeShape(f: Forest)
    ensures ShapeOf(Flatten(f)) == TreeShape(f)
  {
    RootsScan(f, [], NO_SHAPE);
    assert Flatten(f) + [] == Flatten(f);
  }

  // ---------- The algorithm scanner ----------

  function AllowedFor(local: string): Option<set<string>> {
    if local == "SignatureMethod" then Some(ALLOWED_SIGNATURE_METHODS)
    else if local == "DigestMethod" then Some(ALLOWED_DIGEST_METHODS)
    else None
  }

  function FirstDisallowed(attrs: seq<Attr>, allowed: set<string>): Option<string> {
    if attrs == [] then None
    else if attrs[0].name.local == "Algorithm" && attrs[0].value !in allowed then Some(attrs[0].value)
    else FirstDisallowed(attrs[1..], allowed)
  }

  /** The element and algorithm that make this element weak, if it is. */
  function WeakAlgorithm(name: Name, attrs: seq<Attr>): Option<(string, string)> {
    if AllowedFor(name.local).None? then None
    else
      var bad := FirstDisallowed(attrs, AllowedFor(name.local).value);
      if bad.None? then None else Some((name.local, bad.value))
  }

  function FirstWeak(tokens: seq<Token>): Option<(string, string)> {
    if tokens == [] then None
    else if tokens[0].Start? && WeakAlgorithm(tokens[0].name, tokens[0].attrs).Some? then
      WeakAlgorithm(tokens[0].name, tokens[0].attrs)
    else FirstWeak(tokens[1..])
  }

  /** The first weak element in document order. */
  function FirstWeakElement(es: seq<Element>): Option<(string, string)> {
    if es == [] then None
    else if WeakAlgorithm(es[0].name, es[0].attrs).Some? then WeakAlgorithm(es[0].name, es[0].attrs)
    else FirstWeakElement(es[1..])
  }

  /** An attribute that makes an element weak, and none before it does. */
  ghost predicate FirstBadAttr(attrs: seq<Attr>, allowed: set<string>, algorithm: string) {
    exists i :: 0 <= i < |attrs| && attrs[i].name.local == "Algorithm" && attrs[i].value == algorithm && algorithm !in allowed
      && forall j :: 0 <= j < i ==> attrs[j].name.local == "Algorithm" ==> attrs[j].value in allowed
  }

  lemma {:induction false} FirstDisallowedIsFirst(attrs: seq<Attr>, allowed: set<string>)
    ensures var bad := FirstDisallowed(attrs, allowed);
      if bad.Some? then FirstBadAttr(attrs, allowed, bad.value)
      else forall i :: 0 <= i < |attrs| && attrs[i].name.local == "Algorithm" ==> attrs[i].value in allowed
  {
    if attrs != [] && !(attrs[0].name.local == "Algorithm" && attrs[0].value !in allowed) {
      FirstDisallowedIsFirst(attrs[1..], allowed);
      var bad := FirstDisallowed(attrs, allowed);
      if bad.Some? {
        var i :| 0 <= i < |attrs[1..]| && attrs[1..][i].name.local == "Algorithm" && attrs[1..][i].value == bad.value
          && bad.value !in allowed
          && forall j :: 0 <= j < i ==> attrs[1..][j].name.local == "Algorithm" ==> attrs[1..][j].value in allowed;
        assert attrs[i + 1] == attrs[1..][i];
        assert forall j :: 1 <= j < i + 1 ==> attrs[j] == attrs[1..][j - 1];
      } else {
        assert forall j :: 1 <= j < |attrs| ==> attrs[j] == attrs[1..][j - 1];
      }
    }
  }

  predicate FirstWeakAt(es: seq<Element>, i: int) {
    && 0 <= i < |es| && WeakAlgorithm(es[i].name, es[i].attrs).Some?
    && forall j :: 0 <= j < i ==> WeakAlgorithm(es[j].name, es[j].attrs).None?
  }

  /** The element reported is weak and none before it is. */
  lemma {:induction false} FirstWeakElementIsFirst(es: seq<Element>)
    ensures FirstWeakElement(es).Some? ==> exists i ::
              FirstWeakAt(es, i) && WeakAlgorithm(es[i].name, es[i].attrs) == FirstWeakElement(es)
    ensures FirstWeakElement(es).None? ==> forall j :: 0 <= j < |es| ==> WeakAlgorithm(es[j].name, es[j].attrs).None?
  {
    if es != [] {
      assert forall j :: 1 <= j < |es| ==> es[j] == es[1..][j - 1];
      if WeakAlgorithm(es[0].name, es[0].attrs).Some? {
        assert FirstWeakAt(es, 0);
      } else {
        FirstWeakElementIsFirst(es[1..]);
        if FirstWeakElement(es).Some? {
          var i :| FirstWeakAt(es[1..], i) && WeakAlgorithm(es[1..][i].name, es[1..][i].attrs) == FirstWeakElement(es[1..]);
          assert es[i + 1] == es[1..][i];
          assert FirstWeakAt(es, i + 1);
        }
      }
    }
  }

  method ScanWeakSignatureAlgorithms(s: Stream) returns (badElement: string, badAlgorithm: string)
    ensures FirstWeak(s.tokens) == if badElement == "" then None else Some((badElement, badAlgorithm))
    ensures forall f :: s.tokens == Flatten(f) ==>
              FirstWeakElement(Descendants(f)) == if badElement == "" then None else Some((badElement, badAlgorithm))
  {
    forall f | s.tokens == Flatten(f) ensures FirstWeak(s.tokens) == FirstWeakElement(Descendants(f)) {
      WeakScanIsDocumentOrder(f, []);
      assert Flatten(f) + [] == Flatten(f);
    }
    var i := 0;
    while i < |s.tokens|
      invariant 0 <= i <= |s.tokens|
      invariant FirstWeak(s.tokens) == FirstWeak(s.tokens[i..])
    {
      assert s.tokens[i..][1..] == s.tokens[i + 1..];
      if s.tokens[i].Start? && AllowedFor(s.tokens[i].name.local).Some? {
        var local, attrs := s.tokens[i].name.local, s.tokens[i].attrs;
        var allowed := AllowedFor(local).value;
        var j := 0;
        while j < |attrs|
          invariant 0 <= j <= |attrs|
          invariant FirstDisallowed(attrs, allowed) == FirstDisallowed(attrs[j..], allowed)
        {
          assert attrs[j..][1..] == attrs[j + 1..];
          if attrs[j].name.local == "Algorithm" && attrs[j].value !in allowed {
            return local, attrs[j].value;
          }
          j := j + 1;
        }
      }
      i := i + 1;
    }
    return "", "";
  }

  lemma {:induction false} FirstWeakConcat(a: seq<Element>, b: seq<Element>)
    ensures FirstWeakElement(a + b) == if FirstWeakElement(a).Some? then FirstWeakElement(a) else FirstWeakElement(b)
  {
    if a == [] {
      assert a + b == b;
    } else {
      assert (a + b)[1..] == a[1..] + b;
      FirstWeakConcat(a[1..], b);
    }
  }

  lemma {:induction false} WeakScanIsDocumentOrder(f: Forest, rest: seq<Token>)
    ensures FirstWeak(Flatten(f) + rest)
         == if FirstWeakElement(Descendants(f)).Some? then FirstWeakElement(Descendants(f)) else FirstWeak(rest)
    decreases f
  {
    match f
    case Nil => assert Flatten(f) + rest == rest;
    case Text(tail) =>
      assert Flatten(f) + rest == [Misc] + (Flatten(tail) + rest);
      WeakScanIsDocumentOrder(tail, rest);
    case Cons(e, tail) =>
      FlattenCons(e, tail, rest);
      WeakScanIsDocumentOrder(e.kids, [End(e.name)] + (Flatten(tail) + rest));
      WeakScanIsDocumentOrder(tail, rest);
      FirstWeakConcat(Descendants(e.kids), Descendants(tail));
      assert Descendants(f) == [e] + (Descendants(e.kids) + Descendants(tail));
  }

  /** No weak element is reported exactly when every Algorithm in the tree, at any depth, is allowed. */
  lemma {:induction false} NoWeakMeansAllAllowed(es: seq<Element>)
    ensures FirstWeakElement(es).None?
       <==> forall e, a :: e in es && AllowedFor(e.name.local).Some? && a in e.attrs && a.name.local == "Algorithm"
                           ==> a.value in AllowedFor(e.name.local).value
  {
    if es != [] {
      NoWeakMeansAllAllowed(es[1..]);
      assert es == [es[0]] + es[1..];
      if AllowedFor(es[0].name.local).Some? {
        NoDisallowedMeansAllAllowed(es[0].attrs, AllowedFor(es[0].name.local).value);
      }
    }
  }

  lemma {:induction false} NoDisallowedMeansAllAllowed(attrs: seq<Attr>, allowed: set<string>)
    ensures FirstDisallowed(attrs, allowed).None?
       <==> forall a :: a in attrs && a.name.local == "Algorithm" ==> a.value in allowed
  {
    if attrs != [] {
      NoDisallowedMeansAllAllowed(attrs[1..], allowed);
      assert attrs == [attrs[0]] + attrs[1..];
    }
  }
}
