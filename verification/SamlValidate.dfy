/**
 The order of checks around the dependency's parser (saml/validate.go): the
 structural gate before it, the replay record after it.
 */
module SamlValidate {
  import opened Common
  import opened XmlDocument
  import opened SamlAssertion
  import IdentityShape
  import ResponseShape
  import ReplayCache

  const MINUTE := 60_000_000_000

  datatype Config = Config(
    acsURL: string, requireDestination: Option<bool>, rejectWeakSignatures: Option<bool>,
    allowEncryptedAssertions: bool, strictAttributes: bool, maxResponseBytes: int, replayExpiryMargin: int)
  {
    function MaxResponseBytes(): int {
      if maxResponseBytes > 0 then maxResponseBytes else 0x10_0000
    }

    function ReplayMargin(): (margin: int)
      ensures margin > 0
    {
      if replayExpiryMargin > 0 then replayExpiryMargin else MINUTE
    }

    predicate RequiresDestination() {
      requireDestination.None? || requireDestination.value
    }

    predicate RejectsWeak() {
      rejectWeakSignatures.None? || rejectWeakSignatures.value
    }
  }

  datatype Failure =
    | TooLarge | Malformed | TooManyAssertions | MissingDestination | DestinationMismatch
    | WeakAlgorithm(element: string, algorithm: string) | EncryptedNotAllowed
    | ParseFailed | MissingID | DuplicateAttribute | CacheFull | Replayed

  // ---------- The gate, on trees ----------

  predicate DestinationAcceptable(cfg: Config, destination: Option<string>) {
    if cfg.RequiresDestination() then destination == Some(cfg.acsURL) && cfg.acsURL != ""
    else destination.None? || destination.value == "" || destination.value == cfg.acsURL
  }

  /** What the gate promises of the complete document it lets through. */
  ghost predicate Admissible(cfg: Config, f: Forest) {
    && Children(f) != [] && (forall e :: e in Children(f) ==> e.name.local == "Response")
    && |ResponseShape.Assertions(f)| == 1
    && DestinationAcceptable(cfg, ResponseShape.LastDestination(ResponseShape.RootAttrs(f)))
    && (cfg.RejectsWeak() ==> AllAlgorithmsAllowed(f))
    && (cfg.allowEncryptedAssertions || ResponseShape.Assertions(f)[0].name.local == "Assertion")
    && IdentityShape.HasIdentityShape(f)
  }

  ghost predicate AllAlgorithmsAllowed(f: Forest) {
    forall e, a :: e in Descendants(f) && a in e.attrs && a.name.local == "Algorithm" ==>
      && (e.name.local == "SignatureMethod" ==> a.value in ResponseShape.ALLOWED_SIGNATURE_METHODS)
      && (e.name.local == "DigestMethod" ==> a.value in ResponseShape.ALLOWED_DIGEST_METHODS)
  }

  function DestinationFailure(cfg: Config, shape: ResponseShape.Shape): Option<Failure> {
    if cfg.RequiresDestination() then
      if !shape.hasDestination || shape.destination == "" then Some(MissingDestination)
      else if shape.destination != cfg.acsURL then Some(DestinationMismatch)
      else None
    else if shape.hasDestination && shape.destination != "" && shape.destination != cfg.acsURL then Some(DestinationMismatch)
    else None
  }

  /** The first check that fails, in the source's order, given what the three scanners find. */
  function Verdict(cfg: Config, shape: Result<ResponseShape.Shape, ResponseShape.ShapeError>,
                   weak: Option<(string, string)>, identity: bool): Option<Failure> {
    if shape.Err? || shape.value.assertions == 0 then Some(Malformed)
    else if shape.value.assertions > 1 then Some(TooManyAssertions)
    else if DestinationFailure(cfg, shape.value).Some? then DestinationFailure(cfg, shape.value)
    else if cfg.RejectsWeak() && weak.Some? then Some(WeakAlgorithm(weak.value.0, weak.value.1))
    else if !cfg.allowEncryptedAssertions && shape.value.hasEncrypted then Some(EncryptedNotAllowed)
    else if !identity then Some(Malformed)
    else None
  }

  /** On a complete document of acceptable size. */
  function TreeVerdict(cfg: Config, f: Forest): Option<Failure> {
    Verdict(cfg, ResponseShape.TreeShape(f), ResponseShape.FirstWeakElement(Descendants(f)), IdentityShape.HasIdentityShape(f))
  }

  predicate AllResponses(f: Forest) {
    Children(f) != [] && forall e :: e in Children(f) ==> e.name.local == "Response"
  }

  /** The document passes everything before the Destination check. */
  predicate OneAssertion(f: Forest) {
    AllResponses(f) && |ResponseShape.Assertions(f)| == 1
  }

  /** And the Destination check too. */
  predicate WellAddressed(cfg: Config, f: Forest) {
    OneAssertion(f) && DestinationAcceptable(cfg, ResponseShape.LastDestination(ResponseShape.RootAttrs(f)))
  }

  ghost predicate StronglySigned(cfg: Config, f: Forest) {
    WellAddressed(cfg, f) && (cfg.RejectsWeak() ==> AllAlgorithmsAllowed(f))
  }

  predicate EncryptionAllowed(cfg: Config, f: Forest)
    requires |ResponseShape.Assertions(f)| == 1
  {
    cfg.allowEncryptedAssertions || ResponseShape.Assertions(f)[0].name.local == "Assertion"
  }

  /** Each failure has its exact condition on the document. */
  lemma FailuresExactly(cfg: Config, f: Forest)
    ensures var r := TreeVerdict(cfg, f); var destination := ResponseShape.LastDestination(ResponseShape.RootAttrs(f));
      && (r == Some(TooManyAssertions) <==> AllResponses(f) && |ResponseShape.Assertions(f)| > 1)
      && (r == Some(MissingDestination) <==>
           OneAssertion(f) && cfg.RequiresDestination() && (destination.None? || destination == Some("")))
      && (r == Some(DestinationMismatch) <==>
           OneAssertion(f) && destination.Some? && destination != Some("") && destination != Some(cfg.acsURL))
      && ((exists e, a :: r == Some(WeakAlgorithm(e, a))) <==>
           WellAddressed(cfg, f) && cfg.RejectsWeak() && !AllAlgorithmsAllowed(f))
      && (r == Some(EncryptedNotAllowed) <==> StronglySigned(cfg, f) && !EncryptionAllowed(cfg, f))
      && (r == Some(Malformed) <==>
           || !AllResponses(f) || ResponseShape.Assertions(f) == []
           || (StronglySigned(cfg, f) && EncryptionAllowed(cfg, f) && !IdentityShape.HasIdentityShape(f)))
  {
    RootsAreResponses(f);
    if OneAssertion(f) {
      DestinationChecked(cfg, f);
      DestinationFailuresExactly(cfg, f);
      if WellAddressed(cfg, f) {
        LateFailuresExactly(cfg, f);
      }
    }
  }

  lemma LateFailuresExactly(cfg: Config, f: Forest)
    requires WellAddressed(cfg, f)
    ensures var r := TreeVerdict(cfg, f);
      if cfg.RejectsWeak() && !AllAlgorithmsAllowed(f) then r.Some? && r.value.WeakAlgorithm?
      else if !EncryptionAllowed(cfg, f) then r == Some(EncryptedNotAllowed)
      else if !IdentityShape.HasIdentityShape(f) then r == Some(Malformed)
      else r == None
  {
    RootsAreResponses(f);
    NothingWeakMeansAllowed(f);
    SingleAssertionKind(f);
    DestinationChecked(cfg, f);
  }

  lemma DestinationFailuresExactly(cfg: Config, f: Forest)
    ensures var r := DestinationFailure(cfg, ResponseShape.Extended(ResponseShape.NO_SHAPE, f));
      var destination := ResponseShape.LastDestination(ResponseShape.RootAttrs(f));
      && (r == Some(MissingDestination) <==> cfg.RequiresDestination() && (destination.None? || destination == Some("")))
      && (r == Some(DestinationMismatch) <==> destination.Some? && destination != Some("") && destination != Some(cfg.acsURL))
      && (r.None? || r == Some(MissingDestination) || r == Some(DestinationMismatch))
  {
  }

  /** On a document that broke off: the first two scanners judge what came before, and the third never passes. */
  function BrokenVerdict(cfg: Config, tokens: seq<Token>): (r: Option<Failure>)
    ensures r.Some?
  {
    Verdict(cfg, ResponseShape.ShapeOf(tokens), ResponseShape.FirstWeak(tokens), false)
  }

  lemma {:induction false} RootsAreResponses(f: Forest)
    ensures ResponseShape.FirstNonResponse(f).None? <==> forall e :: e in Children(f) ==> e.name.local == "Response"
  {
    match f
    case Nil =>
    case Text(tail) => RootsAreResponses(tail);
    case Cons(e, tail) =>
      RootsAreResponses(tail);
      assert Children(f) == [e] + Children(tail);
  }

  lemma SingleAssertionKind(f: Forest)
    requires |ResponseShape.Assertions(f)| == 1
    ensures ResponseShape.AnyEncrypted(ResponseShape.Assertions(f))
       <==> ResponseShape.Assertions(f)[0].name.local != "Assertion"
  {
    var all := ResponseShape.Assertions(f);
    FilterMembers(Grandchildren(f), ResponseShape.IsAssertion);
    assert all[0] in all && ResponseShape.IsAssertion(all[0]);
    assert forall e :: e in all ==> e == all[0];
  }

  lemma NothingWeakMeansAllowed(f: Forest)
    ensures ResponseShape.FirstWeakElement(Descendants(f)).None? <==> AllAlgorithmsAllowed(f)
  {
    ResponseShape.NoWeakMeansAllAllowed(Descendants(f));
  }

  lemma DestinationChecked(cfg: Config, f: Forest)
    ensures DestinationFailure(cfg, ResponseShape.Extended(ResponseShape.NO_SHAPE, f)).None?
       <==> DestinationAcceptable(cfg, ResponseShape.LastDestination(ResponseShape.RootAttrs(f)))
  {
  }

  /** The verdict is "pass" on exactly the admissible documents. */
  lemma PassesExactlyTheAdmissible(cfg: Config, f: Forest)
    ensures TreeVerdict(cfg, f).None? <==> Admissible(cfg, f)
  {
    RootsAreResponses(f);
    if ResponseShape.TreeShape(f).Ok? && |ResponseShape.Assertions(f)| == 1 {
      SingleAssertionKind(f);
      NothingWeakMeansAllowed(f);
      DestinationChecked(cfg, f);
    }
  }

  /** The checks of `validate` before the dependency's parser is called. */
  method PassGate(cfg: Config, size: nat, s: Stream) returns (r: Option<Failure>)
    requires Delivered(s)
    ensures r.None? <==> size <= cfg.MaxResponseBytes() && s.eof
                         && exists f :: s.tokens == Flatten(f) && Admissible(cfg, f)
    ensures size > cfg.MaxResponseBytes() ==> r == Some(TooLarge)
    ensures size <= cfg.MaxResponseBytes() && s.eof ==> forall f :: s.tokens == Flatten(f) ==> r == TreeVerdict(cfg, f)
    ensures size <= cfg.MaxResponseBytes() && !s.eof ==> r == BrokenVerdict(cfg, s.tokens)
  {
    if s.eof {
      EndOfFileMeansOneForest(s);
      PassesExactlyTheAdmissible(cfg, Build(s.tokens).0);
      IdentityShape.MachineDecidesShape(Build(s.tokens).0);
    }
    if size > cfg.MaxResponseBytes() {
      return Some(TooLarge);
    }
    var scanned := ResponseShape.ScanResponseShape(s);
    if scanned.Err? {
      return Some(Malformed);
    }
    var shape := scanned.value;
    if shape.assertions == 0 {
      return Some(Malformed);
    }
    if shape.assertions > 1 {
      return Some(TooManyAssertions);
    }
    if cfg.RequiresDestination() {
      if !shape.hasDestination || shape.destination == "" {
        return Some(MissingDestination);
      }
      if shape.destination != cfg.acsURL {
        return Some(DestinationMismatch);
      }
    } else if shape.hasDestination && shape.destination != "" && shape.destination != cfg.acsURL {
      return Some(DestinationMismatch);
    }
    if cfg.RejectsWeak() {
      var element, algorithm := ResponseShape.ScanWeakSignatureAlgorithms(s);
      if element != "" {
        return Some(WeakAlgorithm(element, algorithm));
      }
    }
    if !cfg.allowEncryptedAssertions && shape.hasEncrypted {
      return Some(EncryptedNotAllowed);
    }
    var shaped := IdentityShape.ValidatePlaintextIdentityShape(s);
    if !shaped {
      return Some(Malformed);
    }
    return None;
  }

  /** A document that broke off after the start tags of its response and its assertion. */
  function BrokenOff(response: Name): seq<Token> {
    [Start(response, [])] + [Start(IdentityShape.ASSERTION, [])]
  }

  lemma BrokenOffShape(response: Name)
    requires response.local == "Response"
    ensures ResponseShape.ShapeOf(BrokenOff(response)).Ok? && ResponseShape.ShapeOf(BrokenOff(response)).value.assertions == 1
  {
    var inner := [Start(IdentityShape.ASSERTION, [])];
    var tokens := [Start(response, [])] + inner;
    assert tokens[1..] == inner && inner[1..] == [];
    assert ResponseShape.IsAssertion(Element(IdentityShape.ASSERTION, [], Nil));
    var shape := ResponseShape.NO_SHAPE.(rootIsResponse := true);
    assert ResponseShape.Scan(inner, 1, shape) == Ok(shape.(assertions := 1));
    assert ResponseShape.Scan(tokens, 0, ResponseShape.NO_SHAPE) == ResponseShape.Scan(inner, 1, shape);
  }

  lemma BrokenOffDelivered(response: Name)
    ensures Delivered(Stream(BrokenOff(response), false)) && ResponseShape.FirstWeak(BrokenOff(response)).None?
  {
    var inner := [Start(IdentityShape.ASSERTION, [])];
    var tokens := [Start(response, [])] + inner;
    assert tokens[1..] == inner && inner[1..] == [];
    assert OpenAfter(inner, [response]) == Some([response] + [IdentityShape.ASSERTION]);
    assert OpenAfter(tokens, []) == OpenAfter(inner, [] + [response]) && [] + [response] == [response];
    assert ResponseShape.FirstWeak(inner).None?;
  }

  /**
   The gate's soundness is a property of the composition only: the first two
   scanners pass a document that broke off inside its assertion.
   */
  lemma FirstScannersAcceptTruncation()
    ensures exists s :: Delivered(s) && !s.eof
              && ResponseShape.ShapeOf(s.tokens).Ok? && ResponseShape.ShapeOf(s.tokens).value.assertions == 1
              && ResponseShape.FirstWeak(s.tokens).None?
  {
    var response := Name("urn:oasis:names:tc:SAML:2.0:protocol", "Response");
    BrokenOffShape(response);
    BrokenOffDelivered(response);
    var s := Stream(BrokenOff(response), false);
    assert s.tokens == BrokenOff(response);
  }

  // ---------- How long an assertion is remembered ----------

  /** The set NotOnOrAfter instants of an assertion, from its conditions and its confirmations. */
  ghost predicate Bound(a: Accepted, t: int) {
    t != 0 &&
    ((a.conditions.Some? && a.conditions.value.notOnOrAfter == t) ||
     (a.subject.Some? && Some(t) in a.subject.value.confirmations))
  }

  /** The latest of the bounds, or five minutes from now, plus skew plus margin. */
  ghost predicate IsExpiry(a: Accepted, now: int, skew: int, margin: int, expiry: int) {
    var latest := expiry - skew - margin;
    && latest >= now + 5 * MINUTE
    && (forall t :: Bound(a, t) ==> latest >= t)
    && (latest == now + 5 * MINUTE || Bound(a, latest))
  }

  lemma ExpiryIsUnique(a: Accepted, now: int, skew: int, margin: int, e1: int, e2: int)
    requires IsExpiry(a, now, skew, margin, e1) && IsExpiry(a, now, skew, margin, e2)
    ensures e1 == e2
  {
  }

  method ExpiryFor(a: Accepted, now: int, skew: int, margin: int) returns (expiry: int)
    ensures IsExpiry(a, now, skew, margin, expiry)
  {
    var latest := now + 5 * MINUTE;
    if a.conditions.Some? && a.conditions.value.notOnOrAfter != 0 && a.conditions.value.notOnOrAfter > latest {
      latest := a.conditions.value.notOnOrAfter;
    }
    if a.subject.Some? {
      var cs := a.subject.value.confirmations;
      for i := 0 to |cs|
        invariant latest >= now + 5 * MINUTE
        invariant a.conditions.Some? && a.conditions.value.notOnOrAfter != 0 ==> latest >= a.conditions.value.notOnOrAfter
        invariant forall j :: 0 <= j < i && cs[j].Some? && cs[j].value != 0 ==> latest >= cs[j].value
        invariant latest == now + 5 * MINUTE || Bound(a, latest)
      {
        if cs[i].Some? && cs[i].value != 0 {
          if cs[i].value > latest {
            latest := cs[i].value;
            assert cs[i] in cs;
          }
        }
      }
    }
    expiry := latest + skew + margin;
  }

  // ---------- The whole validation ----------

  /** What happens to an assertion that the dependency's parser accepted: the cache is touched only at the end. */
  ghost predicate Settles(cfg: Config, a: Accepted, before: map<string, int>, after: map<string, int>, capacity: nat,
                          expiry: int, now: int, r: Result<Assertion, Failure>) {
    var duplicate := cfg.strictAttributes && Conflict(AllAttributes(a.statements));
    var (outcome, items) := ReplayCache.Decide(before, capacity, a.id, expiry, now);
    && (r.Ok? <==> a.id != "" && !duplicate && outcome == ReplayCache.Admitted)
    && (r == Err(MissingID) <==> a.id == "")
    && (r == Err(DuplicateAttribute) <==> a.id != "" && duplicate)
    && (r == Err(Replayed) <==> a.id != "" && !duplicate && outcome == ReplayCache.Seen)
    && (r == Err(CacheFull) <==> a.id != "" && !duplicate && outcome == ReplayCache.Refused)
    && after == (if a.id != "" && !duplicate then items else before)
    && (r.Ok? ==> IsReshaped(a, r.value))
  }

  /** There is exactly one such result. */
  lemma SettlesOneWay(cfg: Config, a: Accepted, before: map<string, int>, capacity: nat, expiry: int, now: int)
    returns (r: Result<Assertion, Failure>, after: map<string, int>)
    ensures Settles(cfg, a, before, after, capacity, expiry, now, r)
    ensures forall r', after' :: Settles(cfg, a, before, after', capacity, expiry, now, r') ==> r' == r && after' == after
  {
    var duplicate := cfg.strictAttributes && Conflict(AllAttributes(a.statements));
    var (outcome, items) := ReplayCache.Decide(before, capacity, a.id, expiry, now);
    var out := ReshapingExists(a);
    after := if a.id != "" && !duplicate then items else before;
    r := if a.id == "" then Err(MissingID)
         else if duplicate then Err(DuplicateAttribute)
         else match outcome
           case Seen => Err(Replayed)
           case Refused => Err(CacheFull)
           case _ => Ok(out);
    forall r', after' | Settles(cfg, a, before, after', capacity, expiry, now, r') ensures r' == r && after' == after {
      if r'.Ok? {
        ReshapingIsUnique(a, r'.value, out);
      }
    }
  }

  method Settle(cfg: Config, cache: ReplayCache.MemoryReplayCache, a: Accepted, expiry: int, now: int)
    returns (r: Result<Assertion, Failure>)
    requires cache.Valid()
    modifies cache
    ensures cache.Valid()
    ensures Settles(cfg, a, old(cache.items), cache.items, cache.capacity, expiry, now, r)
  {
    if a.id == "" {
      return Err(MissingID);
    }
    var out := AssertionFromAccepted(a, cfg.strictAttributes);
    if out.Err? {
      return Err(DuplicateAttribute);
    }
    var seen := cache.SeenOrAdd(out.value.id, expiry, now);
    if seen.Err? {
      return Err(CacheFull);
    }
    if seen.value {
      return Err(Replayed);
    }
    return Ok(out.value);
  }

  /** The dependency's parser and the two clock readings are parameters; `reached` says whether the parser was called. */
  method Validate(cfg: Config, cache: ReplayCache.MemoryReplayCache, size: nat, s: Stream,
                  parse: Stream -> Option<Accepted>, skew: int, nowForExpiry: int, nowForCache: int)
    returns (r: Result<Assertion, Failure>, ghost reached: bool, ghost expiry: int)
    requires Delivered(s) && cache.Valid()
    modifies cache
    ensures cache.Valid()
    ensures reached <==> size <= cfg.MaxResponseBytes() && s.eof
                         && exists f :: s.tokens == Flatten(f) && Admissible(cfg, f)
    ensures !reached ==> r.Err?
    ensures size > cfg.MaxResponseBytes() ==> r == Err(TooLarge)
    ensures !reached && size <= cfg.MaxResponseBytes() && s.eof ==>
      forall f :: s.tokens == Flatten(f) ==> TreeVerdict(cfg, f) == Some(r.error)
    ensures size <= cfg.MaxResponseBytes() && !s.eof ==> r.Err? && BrokenVerdict(cfg, s.tokens) == Some(r.error)
    ensures reached && parse(s).None? ==> r == Err(ParseFailed)
    ensures reached && parse(s).Some? ==>
      && IsExpiry(parse(s).value, nowForExpiry, skew, cfg.ReplayMargin(), expiry)
      && Settles(cfg, parse(s).value, old(cache.items), cache.items, cache.capacity, expiry, nowForCache, r)
    ensures !(reached && parse(s).Some?) ==> cache.items == old(cache.items)
  {
    reached, expiry := false, 0;
    var gate := PassGate(cfg, size, s);
    if gate.Some? {
      return Err(gate.value), reached, expiry;
    }
    reached := true;
    var parsed := parse(s);
    if parsed.None? {
      return Err(ParseFailed), reached, expiry;
    }
    var expiresAt := ExpiryFor(parsed.value, nowForExpiry, skew, cfg.ReplayMargin());
    expiry := expiresAt;
    r := Settle(cfg, cache, parsed.value, expiresAt, nowForCache);
  }
}
