/**
 XML documents, twice: as trees, and as the token stream that a strict
 streaming decoder delivers. Names arrive with their namespace resolved.
 A decoder may deliver several top-level elements, so a document is a forest.
 */
module XmlDocument {
  import opened Common

  datatype Name = Name(space: string, local: string)

  datatype Attr = Attr(name: Name, value: string)

  /** `Misc` stands for character data, comments and processing instructions. */
  datatype Token = Start(name: Name, attrs: seq<Attr>) | End(name: Name) | Misc

  datatype Element = Element(name: Name, attrs: seq<Attr>, kids: Forest)

  datatype Forest = Nil | Cons(head: Element, tail: Forest) | Text(tail: Forest)

  /** The tokens delivered before the decoder stopped; `eof` is false when it stopped on an error. */
  datatype Stream = Stream(tokens: seq<Token>, eof: bool)

  function Flatten(f: Forest): seq<Token> {
    match f
    case Nil => []
    case Text(tail) => [Misc] + Flatten(tail)
    case Cons(e, tail) => [Start(e.name, e.attrs)] + Flatten(e.kids) + [End(e.name)] + Flatten(tail)
  }

  /** The elements at the top of a forest, in document order. */
  function Children(f: Forest): seq<Element> {
    match f
    case Nil => []
    case Text(tail) => Children(tail)
    case Cons(e, tail) => [e] + Children(tail)
  }

  /** Every element of a forest, in document order. */
  function Descendants(f: Forest): seq<Element> {
    match f
    case Nil => []
    case Text(tail) => Descendants(tail)
    case Cons(e, tail) => [e] + Descendants(e.kids) + Descendants(tail)
  }

  /** The children of all the top-level elements, in document order. */
  function Grandchildren(f: Forest): seq<Element> {
    match f
    case Nil => []
    case Text(tail) => Grandchildren(tail)
    case Cons(e, tail) => Children(e.kids) + Grandchildren(tail)
  }

  /** The elements still open after `tokens`, given those open before; None if an end tag has no match. */
  function OpenAfter(tokens: seq<Token>, open: seq<Name>): Option<seq<Name>> {
    if tokens == [] then Some(open)
    else match tokens[0]
      case Start(name, _) => OpenAfter(tokens[1..], open + [name])
      case Misc => OpenAfter(tokens[1..], open)
      case End(name) =>
        if open != [] && open[|open| - 1] == name then OpenAfter(tokens[1..], open[..|open| - 1]) else None
  }

  /** What a strict decoder can deliver: end tags always match, and end-of-file comes only when nothing is open. */
  predicate Delivered(s: Stream) {
    && OpenAfter(s.tokens, []).Some?
    && (s.eof ==> OpenAfter(s.tokens, []) == Some([]))
  }

  lemma {:induction false} FlattenIsBalanced(f: Forest, open: seq<Name>, rest: seq<Token>)
    ensures OpenAfter(Flatten(f) + rest, open) == OpenAfter(rest, open)
    decreases f
  {
    match f
    case Nil =>
      assert Flatten(f) + rest == rest;
    case Text(tail) =>
      assert Flatten(f) + rest == [Misc] + (Flatten(tail) + rest);
      FlattenIsBalanced(tail, open, rest);
    case Cons(e, tail) =>
      FlattenCons(e, tail, rest);
      var after := [End(e.name)] + (Flatten(tail) + rest);
      FlattenIsBalanced(e.kids, open + [e.name], after);
      assert (open + [e.name])[..|open|] == open;
      FlattenIsBalanced(tail, open, rest);
  }

  lemma FlattenCons(e: Element, tail: Forest, rest: seq<Token>)
    ensures Flatten(Cons(e, tail)) + rest
         == [Start(e.name, e.attrs)] + (Flatten(e.kids) + ([End(e.name)] + (Flatten(tail) + rest)))
  {
  }

  /** Reads the longest run of complete nodes, and returns what is left. */
  function Build(tokens: seq<Token>): (r: (Forest, seq<Token>))
    ensures |r.1| <= |tokens|
    decreases |tokens|
  {
    if tokens == [] then (Nil, [])
    else match tokens[0]
      case End(_) => (Nil, tokens)
      case Misc =>
        var (tail, rest) := Build(tokens[1..]);
        (Text(tail), rest)
      case Start(name, attrs) =>
        var (kids, close) := Build(tokens[1..]);
        if close == [] then (Nil, tokens)
        else
          var (tail, rest) := Build(close[1..]);
          (Cons(Element(name, attrs, kids), tail), rest)
  }

  lemma {:induction false} BuildInvertsFlatten(f: Forest, rest: seq<Token>)
    requires rest == [] || rest[0].End?
    ensures Build(Flatten(f) + rest) == (f, rest)
    decreases f
  {
    match f
    case Nil =>
      assert Flatten(f) + rest == rest;
    case Text(tail) =>
      assert Flatten(f) + rest == [Misc] + (Flatten(tail) + rest);
      BuildInvertsFlatten(tail, rest);
    case Cons(e, tail) =>
      FlattenCons(e, tail, rest);
      BuildInvertsFlatten(e.kids, [End(e.name)] + (Flatten(tail) + rest));
      BuildInvertsFlatten(tail, rest);
  }

  ghost predicate Explained(tokens: seq<Token>, open: seq<Name>, f: Forest, rest: seq<Token>) {
    && tokens == Flatten(f) + rest
    && OpenAfter(rest, open) == Some([])
    && (if open == [] then rest == [] else rest != [] && rest[0] == End(open[|open| - 1]))
  }

  lemma {:induction false} BuildExplains(tokens: seq<Token>, open: seq<Name>)
    requires OpenAfter(tokens, open) == Some([])
    ensures Explained(tokens, open, Build(tokens).0, Build(tokens).1)
    decreases |tokens|
  {
    if tokens == [] {
    } else if tokens[0].End? {
    } else if tokens[0].Misc? {
      BuildExplains(tokens[1..], open);
      assert tokens == [Misc] + tokens[1..];
    } else {
      var name := tokens[0].name;
      BuildExplains(tokens[1..], open + [name]);
      var (kids, close) := Build(tokens[1..]);
      assert OpenAfter(close[1..], open) == Some([]) by {
        assert (open + [name])[..|open|] == open;
      }
      BuildExplains(close[1..], open);
      var (tail, rest) := Build(close[1..]);
      ExplainedElement(tokens, open, kids, close, tail, rest);
    }
  }

  lemma ExplainedElement(tokens: seq<Token>, open: seq<Name>, kids: Forest, close: seq<Token>, tail: Forest, rest: seq<Token>)
    requires tokens != [] && tokens[0].Start? && close != []
    requires Explained(tokens[1..], open + [tokens[0].name], kids, close)
    requires Explained(close[1..], open, tail, rest)
    ensures Explained(tokens, open, Cons(Element(tokens[0].name, tokens[0].attrs, kids), tail), rest)
  {
    var e := Element(tokens[0].name, tokens[0].attrs, kids);
    FlattenCons(e, tail, rest);
    assert close == [End(e.name)] + close[1..];
    assert tokens == [tokens[0]] + tokens[1..];
  }

  /** A stream that reached end-of-file is the flattening of one forest, and of no other. */
  lemma EndOfFileMeansOneForest(s: Stream)
    requires Delivered(s) && s.eof
    ensures s.tokens == Flatten(Build(s.tokens).0)
    ensures forall f :: s.tokens == Flatten(f) ==> f == Build(s.tokens).0
  {
    BuildExplains(s.tokens, []);
    assert Flatten(Build(s.tokens).0) + [] == Flatten(Build(s.tokens).0);
    forall f | s.tokens == Flatten(f) ensures f == Build(s.tokens).0 {
      BuildInvertsFlatten(f, []);
      assert Flatten(f) + [] == Flatten(f);
    }
  }
}
