/**
 The identity shape of plaintext assertions (saml/identity_shape.go): a stack
 machine over tokens, and the predicate on trees that it decides.
 */
module IdentityShape {
  import opened Common
  import opened XmlDocument

  const ASSERTION_NS := "urn:oasis:names:tc:SAML:2.0:assertion"

  const ASSERTION := Name(ASSERTION_NS, "Assertion")

  // ---------- The predicate on trees ----------

  /** The children of `f` with this local name, whatever their namespace. */
  function Named(f: Forest, local: string): seq<Element> {
    match f
    case Nil => []
    case Text(tail) => Named(tail, local)
    case Cons(e, tail) => (if e.name.local == local then [e] else []) + Named(tail, local)
  }

  /** `Named` is the filter of the children by local name. */
  lemma {:induction false} NamedIsFilter(f: Forest, local: string)
    ensures Named(f, local) == Filter(Children(f), (e: Element) => e.name.local == local)
  {
    match f
    case Nil =>
    case Text(tail) => NamedIsFilter(tail, local);
    case Cons(e, tail) =>
      NamedIsFilter(tail, local);
      assert Children(f)[1..] == Children(tail);
  }

  predicate InAssertionNamespace(es: seq<Element>) {
    forall e :: e in es ==> e.name.space == ASSERTION_NS
  }

  /** The NameIDs directly under the children named Subject. */
  function SubjectNames(f: Forest): seq<Element> {
    match f
    case Nil => []
    case Text(tail) => SubjectNames(tail)
    case Cons(e, tail) => (if e.name.local == "Subject" then Named(e.kids, "NameID") else []) + SubjectNames(tail)
  }

  /** One Issuer, at most one Subject, at most one NameID under it, all in the assertion namespace. */
  predicate AssertionShape(kids: Forest) {
    && |Named(kids, "Issuer")| == 1 && InAssertionNamespace(Named(kids, "Issuer"))
    && |Named(kids, "Subject")| <= 1 && InAssertionNamespace(Named(kids, "Subject"))
    && |SubjectNames(kids)| <= 1 && InAssertionNamespace(SubjectNames(kids))
  }

  /** Every assertion that is a child of a root has the identity shape; deeper ones are not looked at. */
  predicate HasIdentityShape(f: Forest) {
    forall e :: e in Grandchildren(f) && e.name == ASSERTION ==> AssertionShape(e.kids)
  }

  // ---------- The machine ----------

  datatype State = State(stack: seq<Name>, issuers: nat, subjects: nat, names: nat)

  const INITIAL := State([], 0, 0, 0)

  function Opened(s: State, name: Name): Option<State> {
    var stack := s.stack + [name];
    var s := if |stack| == 2 && name == ASSERTION then State(stack, 0, 0, 0) else s.(stack := stack);
    if |stack| < 3 || stack[1] != ASSERTION then Some(s)
    else if |stack| == 3 && name.local == "Issuer" then
      if name.space == ASSERTION_NS && s.issuers == 0 then Some(s.(issuers := 1)) else None
    else if |stack| == 3 && name.local == "Subject" then
      if name.space == ASSERTION_NS && s.subjects == 0 then Some(s.(subjects := 1)) else None
    else if |stack| == 4 && stack[2].local == "Subject" && name.local == "NameID" then
      if name.space == ASSERTION_NS && s.names == 0 then Some(s.(names := 1)) else None
    else Some(s)
  }

  function Closed(s: State): Option<State> {
    if |s.stack| == 2 && s.stack[1] == ASSERTION && s.issuers != 1 then None
    else Some(s.(stack := if s.stack == [] then [] else s.stack[..|s.stack| - 1]))
  }

  /** The machine's state after `tokens`, or None once it has refused. */
  function Run(tokens: seq<Token>, s: State): Option<State> {
    if tokens == [] then Some(s)
    else
      var next := match tokens[0]
        case Start(name, _) => Opened(s, name)
        case End(_) => Closed(s)
        case Misc => Some(s);
      if next.None? then None else Run(tokens[1..], next.value)
  }

  lemma VerdictOnStreams(s: Stream)
    requires Delivered(s) && s.eof
    ensures Run(s.tokens, INITIAL).Some? <==> exists f :: s.tokens == Flatten(f) && HasIdentityShape(f)
  {
    EndOfFileMeansOneForest(s);
    MachineDecidesShape(Build(s.tokens).0);
  }

  /** The loop of the source: counters and a stack updated token by token. */
  method ValidatePlaintextIdentityShape(s: Stream) returns (ok: bool)
    requires Delivered(s)
    ensures ok <==> s.eof && Run(s.tokens, INITIAL).Some?
    ensures ok <==> s.eof && exists f :: s.tokens == Flatten(f) && HasIdentityShape(f)
  {
    if s.eof {
      VerdictOnStreams(s);
    }
    var stack: seq<Name> := [];
    var issuers, subjects, names := 0, 0, 0;
    var i := 0;
    while i < |s.tokens|
      invariant 0 <= i <= |s.tokens|
      invariant issuers >= 0 && subjects >= 0 && names >= 0
      invariant OpenAfter(s.tokens[i..], stack).Some?
      invariant Run(s.tokens, INITIAL) == Run(s.tokens[i..], State(stack, issuers, subjects, names))
    {
      assert s.tokens[i..][1..] == s.tokens[i + 1..];
      match s.tokens[i] {
      case Start(name, _) =>
        stack := stack + [name];
        if |stack| == 2 && name == ASSERTION {
          issuers, subjects, names := 0, 0, 0;
        }
        if !(|stack| < 3 || stack[1] != ASSERTION) {
          if |stack| == 3 && name.local == "Issuer" {
            issuers := issuers + 1;
            if name.space != ASSERTION_NS || issuers != 1 {
              return false;
            }
          }
          if |stack| == 3 && name.local == "Subject" {
            subjects := subjects + 1;
            if name.space != ASSERTION_NS || subjects != 1 {
              return false;
            }
          }
          if |stack| == 4 && stack[2].local == "Subject" && name.local == "NameID" {
            names := names + 1;
            if name.space != ASSERTION_NS || names != 1 {
              return false;
            }
          }
        }
      case End(_) =>
        if |stack| == 2 && stack[1] == ASSERTION && issuers != 1 {
          return false;
        }
        stack := stack[..|stack| - 1];
      case Misc =>
      }
      i := i + 1;
    }
    return s.eof;
  }

  // ---------- The machine decides the predicate ----------

  /** Positions below which no element is counted. */
  predicate Quiet(stack: seq<Name>) {
    |stack| >= 2 && (stack[1] != ASSERTION || |stack| >= 4 || (|stack| == 3 && stack[2].local != "Subject"))
  }

  /** One element, opened, run through its children and closed. */
  lemma RunElement(e: Element, tail: Forest, rest: seq<Token>, s: State)
    ensures Run(Flatten(Cons(e, tail)) + rest, s)
         == if Opened(s, e.name).None? then None
            else Run(Flatten(e.kids) + ([End(e.name)] + (Flatten(tail) + rest)), Opened(s, e.name).value)
  {
    FlattenCons(e, tail, rest);
  }

  lemma RunText(tail: Forest, rest: seq<Token>, s: State)
    ensures Run(Flatten(Text(tail)) + rest, s) == Run(Flatten(tail) + rest, s)
  {
    assert Flatten(Text(tail)) + rest == [Misc] + (Flatten(tail) + rest);
  }

  lemma RunEnd(name: Name, rest: seq<Token>, s: State)
    ensures Run([End(name)] + rest, s) == if Closed(s).None? then None else Run(rest, Closed(s).value)
  {
    assert ([End(name)] + rest)[1..] == rest;
  }

  lemma {:induction false} QuietForest(f: Forest, rest: seq<Token>, s: State)
    requires Quiet(s.stack)
    ensures Run(Flatten(f) + rest, s) == Run(rest, s)
    decreases f
  {
    match f
    case Nil => assert Flatten(f) + rest == rest;
    case Text(tail) =>
      RunText(tail, rest, s);
      QuietForest(tail, rest, s);
    case Cons(e, tail) =>
      RunElement(e, tail, rest, s);
      var inner := s.(stack := s.stack + [e.name]);
      var after := Flatten(tail) + rest;
      QuietForest(e.kids, [End(e.name)] + after, inner);
      RunEnd(e.name, after, inner);
      QuietForest(tail, rest, s);
  }

  predicate AtMostOneMore(count: nat, es: seq<Element>) {
    count + |es| <= 1 && InAssertionNamespace(es)
  }

  lemma NamedOneByOne(e: Element, tail: Forest, local: string)
    ensures Named(Cons(e, tail), local) == Named(Cons(e, Nil), local) + Named(tail, local)
  {
    assert Named(Nil, local) == [];
  }

  /** The common course of an element that is not refused when opened and whose children are not counted. */
  lemma UncountedChild(e: Element, tail: Forest, rest: seq<Token>, s: State)
    requires |s.stack| >= 2 && Opened(s, e.name).Some? && Quiet(s.stack + [e.name])
    ensures Run(Flatten(Cons(e, tail)) + rest, s)
         == Run(Flatten(tail) + rest, Opened(s, e.name).value.(stack := s.stack))
  {
    var after := Flatten(tail) + rest;
    var inner := Opened(s, e.name).value;
    RunElement(e, tail, rest, s);
    QuietForest(e.kids, [End(e.name)] + after, inner);
    RunEnd(e.name, after, inner);
  }

  predicate SubjectFits(s: State, f: Forest) {
    AtMostOneMore(s.names, Named(f, "NameID"))
  }

  function SubjectCounted(s: State, f: Forest): State {
    s.(names := s.names + |Named(f, "NameID")|)
  }

  lemma SubjectFitsOneByOne(e: Element, tail: Forest, s: State)
    ensures SubjectFits(s, Cons(e, tail)) <==> SubjectFits(s, Cons(e, Nil)) && SubjectFits(SubjectCounted(s, Cons(e, Nil)), tail)
    ensures SubjectCounted(s, Cons(e, tail)) == SubjectCounted(SubjectCounted(s, Cons(e, Nil)), tail)
  {
    NamedOneByOne(e, tail, "NameID");
  }

  /** What opening a child of a Subject does to the state, in terms of the counts. */
  lemma OpenedUnderSubject(e: Element, s: State)
    requires |s.stack| == 3 && s.stack[1] == ASSERTION && s.stack[2].local == "Subject" && s.names <= 1
    ensures Opened(s, e.name).Some? <==> SubjectFits(s, Cons(e, Nil))
    ensures Opened(s, e.name).Some? ==> Opened(s, e.name).value.(stack := s.stack) == SubjectCounted(s, Cons(e, Nil))
  {
    CountsOfOne(e, "NameID");
    assert e.name.local == "NameID" ==> e in Named(Cons(e, Nil), "NameID");
  }

  lemma SubjectChild(e: Element, tail: Forest, rest: seq<Token>, s: State)
    requires |s.stack| == 3 && s.stack[1] == ASSERTION && s.stack[2].local == "Subject" && s.names <= 1
    ensures Run(Flatten(Cons(e, tail)) + rest, s)
         == if SubjectFits(s, Cons(e, Nil)) then Run(Flatten(tail) + rest, SubjectCounted(s, Cons(e, Nil))) else None
  {
    OpenedUnderSubject(e, s);
    if Opened(s, e.name).Some? {
      UncountedChild(e, tail, rest, s);
    } else {
      RunElement(e, tail, rest, s);
    }
  }

  /** Directly under a Subject, only NameIDs are counted. */
  lemma {:induction false} SubjectForest(f: Forest, rest: seq<Token>, s: State)
    requires |s.stack| == 3 && s.stack[1] == ASSERTION && s.stack[2].local == "Subject" && s.names <= 1
    ensures Run(Flatten(f) + rest, s) == if SubjectFits(s, f) then Run(rest, SubjectCounted(s, f)) else None
    decreases f
  {
    match f
    case Nil => assert Flatten(f) + rest == rest;
    case Text(tail) =>
      RunText(tail, rest, s);
      SubjectForest(tail, rest, s);
    case Cons(e, tail) =>
      SubjectChild(e, tail, rest, s);
      SubjectFitsOneByOne(e, tail, s);
      if SubjectFits(s, Cons(e, Nil)) {
        SubjectForest(tail, rest, SubjectCounted(s, Cons(e, Nil)));
      }
  }

  predicate AssertionFits(s: State, f: Forest) {
    && AtMostOneMore(s.issuers, Named(f, "Issuer"))
    && AtMostOneMore(s.subjects, Named(f, "Subject"))
    && AtMostOneMore(s.names, SubjectNames(f))
  }

  function Counted(s: State, f: Forest): State {
    s.(issuers := s.issuers + |Named(f, "Issuer")|,
       subjects := s.subjects + |Named(f, "Subject")|,
       names := s.names + |SubjectNames(f)|)
  }

  lemma CountsOfOne(e: Element, local: string)
    ensures Named(Cons(e, Nil), local) == if e.name.local == local then [e] else []
    ensures SubjectNames(Cons(e, Nil)) == if e.name.local == "Subject" then Named(e.kids, "NameID") else []
  {
  }

  /** A Subject among the children of an Assertion. */
  lemma SubjectOfAssertion(e: Element, tail: Forest, rest: seq<Token>, s: State)
    requires |s.stack| == 2 && s.stack[1] == ASSERTION && s.names <= 1
    requires e.name == Name(ASSERTION_NS, "Subject") && s.subjects == 0
    ensures var names := Named(e.kids, "NameID");
      Run(Flatten(Cons(e, tail)) + rest, s)
      == if AtMostOneMore(s.names, names)
         then Run(Flatten(tail) + rest, s.(subjects := 1, names := s.names + |names|)) else None
  {
    var after := Flatten(tail) + rest;
    RunElement(e, tail, rest, s);
    var inner := s.(stack := s.stack + [e.name], subjects := 1);
    SubjectForest(e.kids, [End(e.name)] + after, inner);
    RunEnd(e.name, after, inner.(names := s.names + |Named(e.kids, "NameID")|));
  }

  lemma OpenedUnderAssertion(e: Element, s: State)
    requires |s.stack| == 2 && s.stack[1] == ASSERTION && s.issuers <= 1 && s.subjects <= 1 && s.names <= 1
    requires Opened(s, e.name).Some? && e.name.local != "Subject"
    ensures AssertionFits(s, Cons(e, Nil))
    ensures Opened(s, e.name).value.(stack := s.stack) == Counted(s, Cons(e, Nil))
  {
    CountsOfOne(e, "Issuer");
    CountsOfOne(e, "Subject");
  }

  /** A child that is not refused when opened and is no Subject. */
  lemma OtherOfAssertion(e: Element, tail: Forest, rest: seq<Token>, s: State)
    requires |s.stack| == 2 && s.stack[1] == ASSERTION && s.issuers <= 1 && s.subjects <= 1 && s.names <= 1
    requires Opened(s, e.name).Some? && e.name.local != "Subject"
    ensures AssertionFits(s, Cons(e, Nil))
    ensures Run(Flatten(Cons(e, tail)) + rest, s) == Run(Flatten(tail) + rest, Counted(s, Cons(e, Nil)))
  {
    OpenedUnderAssertion(e, s);
    UncountedChild(e, tail, rest, s);
  }

  /** A child that is refused when opened. */
  lemma RefusedOfAssertion(e: Element, tail: Forest, rest: seq<Token>, s: State)
    requires |s.stack| == 2 && s.stack[1] == ASSERTION && Opened(s, e.name).None?
    ensures !AssertionFits(s, Cons(e, Nil)) && Run(Flatten(Cons(e, tail)) + rest, s).None?
  {
    CountsOfOne(e, e.name.local);
    RunElement(e, tail, rest, s);
    assert e in Named(Cons(e, Nil), e.name.local);
  }

  /** A Subject that is not refused when opened counts itself and the NameIDs under it. */
  lemma CountsOfSubject(e: Element, s: State)
    requires |s.stack| == 2 && s.stack[1] == ASSERTION && s.issuers <= 1 && s.subjects <= 1 && s.names <= 1
    requires Opened(s, e.name).Some? && e.name.local == "Subject"
    ensures e.name == Name(ASSERTION_NS, "Subject") && s.subjects == 0
    ensures var names := Named(e.kids, "NameID");
      && (AssertionFits(s, Cons(e, Nil)) <==> AtMostOneMore(s.names, names))
      && Counted(s, Cons(e, Nil)) == s.(subjects := 1, names := s.names + |names|)
  {
    CountsOfOne(e, "Issuer");
    CountsOfOne(e, "Subject");
  }

  /** One child of an Assertion. */
  lemma AssertionChild(e: Element, tail: Forest, rest: seq<Token>, s: State)
    requires |s.stack| == 2 && s.stack[1] == ASSERTION && s.issuers <= 1 && s.subjects <= 1 && s.names <= 1
    ensures Run(Flatten(Cons(e, tail)) + rest, s)
         == if AssertionFits(s, Cons(e, Nil)) then Run(Flatten(tail) + rest, Counted(s, Cons(e, Nil))) else None
  {
    if Opened(s, e.name).None? {
      RefusedOfAssertion(e, tail, rest, s);
    } else if e.name.local == "Subject" {
      CountsOfSubject(e, s);
      SubjectOfAssertion(e, tail, rest, s);
    } else {
      OtherOfAssertion(e, tail, rest, s);
    }
  }

  lemma FitsOneByOne(e: Element, tail: Forest, s: State)
    ensures AssertionFits(s, Cons(e, tail))
       <==> AssertionFits(s, Cons(e, Nil)) && AssertionFits(Counted(s, Cons(e, Nil)), tail)
    ensures Counted(s, Cons(e, tail)) == Counted(Counted(s, Cons(e, Nil)), tail)
  {
    var one := Cons(e, Nil);
    NamedOneByOne(e, tail, "Issuer");
    NamedOneByOne(e, tail, "Subject");
    assert SubjectNames(Cons(e, tail)) == SubjectNames(one) + SubjectNames(tail);
  }

  /** Directly under an Assertion, Issuers and Subjects are counted, and NameIDs under each Subject. */
  lemma {:induction false} AssertionForest(f: Forest, rest: seq<Token>, s: State)
    requires |s.stack| == 2 && s.stack[1] == ASSERTION && s.issuers <= 1 && s.subjects <= 1 && s.names <= 1
    ensures Run(Flatten(f) + rest, s) == if AssertionFits(s, f) then Run(rest, Counted(s, f)) else None
    decreases f
  {
    match f
    case Nil => assert Flatten(f) + rest == rest;
    case Text(tail) =>
      RunText(tail, rest, s);
      AssertionForest(tail, rest, s);
    case Cons(e, tail) =>
      AssertionChild(e, tail, rest, s);
      FitsOneByOne(e, tail, s);
      if AssertionFits(s, Cons(e, Nil)) {
        AssertionForest(tail, rest, Counted(s, Cons(e, Nil)));
      }
  }

  /** The counters left behind by the last assertion among the children of a root. */
  function AfterRootChildren(s: State, f: Forest): (after: State)
    ensures after.stack == s.stack
    decreases f
  {
    match f
    case Nil => s
    case Text(tail) => AfterRootChildren(s, tail)
    case Cons(e, tail) =>
      AfterRootChildren(if e.name == ASSERTION then Counted(State(s.stack, 0, 0, 0), e.kids) else s, tail)
  }

  predicate AllShaped(es: seq<Element>) {
    forall e :: e in es && e.name == ASSERTION ==> AssertionShape(e.kids)
  }

  lemma {:induction false} RootChildren(f: Forest, rest: seq<Token>, s: State)
    requires |s.stack| == 1
    ensures Run(Flatten(f) + rest, s) == if AllShaped(Children(f)) then Run(rest, AfterRootChildren(s, f)) else None
    decreases f
  {
    match f
    case Nil => assert Flatten(f) + rest == rest;
    case Text(tail) =>
      RunText(tail, rest, s);
      RootChildren(tail, rest, s);
    case Cons(e, tail) =>
      var after := Flatten(tail) + rest;
      RunElement(e, tail, rest, s);
      var inner := Opened(s, e.name).value;
      assert e in Children(f);
      if e.name != ASSERTION {
        QuietForest(e.kids, [End(e.name)] + after, inner);
        RunEnd(e.name, after, inner);
        RootChildren(tail, rest, s);
      } else {
        AssertionForest(e.kids, [End(e.name)] + after, inner);
        var counted := Counted(inner, e.kids);
        if AssertionFits(inner, e.kids) && counted.issuers == 1 {
          RunEnd(e.name, after, counted);
          assert AssertionShape(e.kids);
          RootChildren(tail, rest, counted.(stack := s.stack));
          assert counted.(stack := s.stack) == Counted(State(s.stack, 0, 0, 0), e.kids);
        } else {
          RunEnd(e.name, after, counted);
          assert !AssertionShape(e.kids);
        }
      }
  }

  function AfterRoots(s: State, f: Forest): State
    decreases f
  {
    match f
    case Nil => s
    case Text(tail) => AfterRoots(s, tail)
    case Cons(e, tail) => AfterRoots(AfterRootChildren(s.(stack := [e.name]), e.kids).(stack := []), tail)
  }

  lemma {:induction false} Roots(f: Forest, rest: seq<Token>, s: State)
    requires s.stack == []
    ensures Run(Flatten(f) + rest, s) == if HasIdentityShape(f) then Run(rest, AfterRoots(s, f)) else None
    decreases f
  {
    match f
    case Nil => assert Flatten(f) + rest == rest;
    case Text(tail) =>
      RunText(tail, rest, s);
      Roots(tail, rest, s);
    case Cons(e, tail) =>
      var after := Flatten(tail) + rest;
      RunElement(e, tail, rest, s);
      var inner := s.(stack := [e.name]);
      assert [] + [e.name] == [e.name];
      RootChildren(e.kids, [End(e.name)] + after, inner);
      var done := AfterRootChildren(inner, e.kids);
      RunEnd(e.name, after, done);
      Roots(tail, rest, done.(stack := []));
      assert Grandchildren(f) == Children(e.kids) + Grandchildren(tail);
  }

  /** On every forest, the machine accepts exactly the identity shape. */
  lemma MachineDecidesShape(f: Forest)
    ensures Run(Flatten(f), INITIAL).Some? <==> HasIdentityShape(f)
  {
    Roots(f, [], INITIAL);
    assert Flatten(f) + [] == Flatten(f);
  }

  /** Content below the NameID level, as in deeper nested assertions, never affects the verdict. */
  lemma {:induction false} DeepContentIsIrrelevant(f: Forest, g: Forest)
    requires Pruned(f, 3) == Pruned(g, 3)
    ensures HasIdentityShape(f) <==> HasIdentityShape(g)
  {
    PruningKeepsShape(f);
    PruningKeepsShape(g);
  }

  /** The forest cut off below `depth` levels. */
  function Pruned(f: Forest, depth: nat): Forest {
    match f
    case Nil => Nil
    case Text(tail) => Text(Pruned(tail, depth))
    case Cons(e, tail) =>
      Cons(e.(kids := if depth == 0 then Nil else Pruned(e.kids, depth - 1)), Pruned(tail, depth))
  }

  lemma {:induction false} PruningKeepsNames(f: Forest, depth: nat, local: string)
    ensures |Named(f, local)| == |Named(Pruned(f, depth), local)|
    ensures InAssertionNamespace(Named(f, local)) <==> InAssertionNamespace(Named(Pruned(f, depth), local))
  {
    match f
    case Nil =>
    case Text(tail) => PruningKeepsNames(tail, depth, local);
    case Cons(e, tail) =>
      PruningKeepsNames(tail, depth, local);
      var p := Pruned(f, depth);
      assert Named(f, local) == (if e.name.local == local then [e] else []) + Named(tail, local);
      assert Named(p, local) == (if e.name.local == local then [p.head] else []) + Named(p.tail, local);
  }

  lemma {:induction false} PruningKeepsSubjectNames(f: Forest, depth: nat)
    requires depth >= 1
    ensures |SubjectNames(f)| == |SubjectNames(Pruned(f, depth))|
    ensures InAssertionNamespace(SubjectNames(f)) <==> InAssertionNamespace(SubjectNames(Pruned(f, depth)))
  {
    match f
    case Nil =>
    case Text(tail) => PruningKeepsSubjectNames(tail, depth);
    case Cons(e, tail) =>
      PruningKeepsSubjectNames(tail, depth);
      PruningKeepsNames(e.kids, depth - 1, "NameID");
      var p := Pruned(f, depth);
      assert SubjectNames(f) == (if e.name.local == "Subject" then Named(e.kids, "NameID") else []) + SubjectNames(tail);
      assert SubjectNames(p)
          == (if e.name.local == "Subject" then Named(p.head.kids, "NameID") else []) + SubjectNames(p.tail);
  }

  lemma {:induction false} PruningKeepsRootChildren(f: Forest, depth: nat)
    requires depth >= 2
    ensures AllShaped(Children(f)) <==> AllShaped(Children(Pruned(f, depth)))
  {
    match f
    case Nil =>
    case Text(tail) => PruningKeepsRootChildren(tail, depth);
    case Cons(e, tail) =>
      PruningKeepsRootChildren(tail, depth);
      PruningKeepsNames(e.kids, depth - 1, "Issuer");
      PruningKeepsNames(e.kids, depth - 1, "Subject");
      PruningKeepsSubjectNames(e.kids, depth - 1);
      var p := Pruned(f, depth);
      assert Children(f) == [e] + Children(tail) && Children(p) == [p.head] + Children(p.tail);
  }

  lemma {:induction false} PruningKeepsShape(f: Forest)
    ensures HasIdentityShape(f) <==> HasIdentityShape(Pruned(f, 3))
  {
    match f
    case Nil =>
    case Text(tail) => PruningKeepsShape(tail);
    case Cons(e, tail) =>
      PruningKeepsShape(tail);
      PruningKeepsRootChildren(e.kids, 2);
      var p := Pruned(f, 3);
      assert Grandchildren(f) == Children(e.kids) + Grandchildren(tail);
      assert Grandchildren(p) == Children(p.head.kids) + Grandchildren(p.tail);
  }
}
