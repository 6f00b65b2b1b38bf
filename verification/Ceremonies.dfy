/**
 The three passkey Finish ceremonies (passkey/registration.go, authentication.go,
 discoverable.go): first as methods over the two stores, then as steps that
 other ceremonies may interleave with.
 */
module Ceremonies {
  import opened Common
  import opened CredentialStore
  import opened TtlQueue
  import PasskeySessions

  datatype Session = Session(userHandle: string, challenge: string)

  datatype LoginResult = LoginResult(userHandle: string, credential: Credential)

  datatype Failure = NoCredentials | NotBegun | SessionNotFound | VerificationFailed | CredentialNotFound | NotPersisted

  /** The counter rule of WebAuthn Level 2, section 6.1.1, as the dependency applies it. */
  function Advanced(c: Credential, reported: nat): Credential {
    if reported <= c.signCount && (reported != 0 || c.signCount != 0) then c.(cloneWarning := true)
    else c.(signCount := reported)
  }

  /** The counter never goes down in one login; not advancing is flagged, unless there never was a counter. */
  lemma AdvancedKeepsTheHigher(c: Credential, reported: nat)
    ensures var n := Advanced(c, reported);
      && n.id == c.id && n.signCount == (if c.signCount < reported then reported else c.signCount)
      && (n.cloneWarning <==> c.cloneWarning || (reported <= c.signCount && c.signCount > 0))
  {
  }

  // ---------- One ceremony at a time ----------

  /** The dependency's verdict on a login: the credential the authenticator used and the counter it reported. */
  datatype Verdict = Rejected | Verified(used: Credential, reported: nat)

  /** Assumed of the dependency: what it verifies is one of the credentials offered to it. */
  ghost predicate VerifiesOffered(verify: (Session, string, seq<Stored>) -> Verdict) {
    forall s: Session, handle: string, offered: seq<Stored> :: verify(s, handle, offered).Verified? ==>
      exists sc: Stored :: sc in offered && sc.credential == verify(s, handle, offered).used
  }

  /** The owner's records, each once, in some order. */
  ghost predicate Lists(offered: seq<Stored>, records: Records, handle: string) {
    && |offered| == |OwnedBy(records, handle)|
    && forall sc :: sc in offered <==> sc in OwnedBy(records, handle).Values
  }

  lemma NothingOffered(records: Records, handle: string, offered: seq<Stored>)
    requires Lists(offered, records, handle)
    ensures offered == [] <==> forall id :: id in records ==> records[id].userHandle != handle
  {
    if offered == [] {
      assert OwnedBy(records, handle) == map[];
      forall id | id in records ensures records[id].userHandle != handle {
        assert id !in OwnedBy(records, handle);
      }
    } else {
      assert offered[0] in offered;
      var id :| id in OwnedBy(records, handle) && OwnedBy(records, handle)[id] == offered[0];
    }
  }

  /** `begin` is the dependency's challenge, `id` the fresh random id and `sampled` the clock before the store's lock. */
  method BeginLogin(sessions: MemoryStore<Session>, creds: MemoryCredentialStore, handle: string, id: string,
                    sampled: int, begin: (string, seq<Stored>) -> Option<Session>)
    returns (r: Result<string, Failure>, ghost offered: seq<Stored>)
    requires sessions.Valid() && id !in sessions.items
    modifies sessions
    ensures sessions.Valid() && Lists(offered, creds.byID, handle)
    ensures r == Err(NoCredentials) <==> forall k :: k in creds.byID ==> creds.byID[k].userHandle != handle
    ensures r != Err(NoCredentials) ==> r == if begin(handle, offered).Some? then Ok(id) else Err(NotBegun)
    ensures sessions.Contents() ==
      if r.Ok? then Put(old(sessions.Contents()), sessions.maxItems, id, begin(handle, offered).value, sampled, sessions.ttl)
      else old(sessions.Contents())
  {
    var stored := creds.FindByUserHandle(handle);
    offered := stored;
    NothingOffered(creds.byID, handle, stored);
    if |stored| == 0 {
      return Err(NoCredentials), offered;
    }
    var session := begin(handle, stored);
    if session.None? {
      return Err(NotBegun), offered;
    }
    PasskeySessions.PutSession(sessions, id, session.value, sampled);
    return Ok(id), offered;
  }

  function LoginVerdict(handle: string, verdict: Verdict): Result<LoginResult, Failure> {
    if verdict.Rejected? then Err(VerificationFailed)
    else Ok(LoginResult(handle, Advanced(verdict.used, verdict.reported)))
  }

  /** The session goes first, whatever comes of it; a write-back follows only a verified login. */
  method FinishLogin(sessions: MemoryStore<Session>, creds: MemoryCredentialStore, handle: string, sessionID: string,
                     now: int, verify: (Session, string, seq<Stored>) -> Verdict)
    returns (r: Result<LoginResult, Failure>, ghost offered: seq<Stored>)
    requires sessions.Valid() && KeyedById(creds.byID) && VerifiesOffered(verify)
    modifies sessions, creds
    ensures sessions.Valid() && KeyedById(creds.byID)
    ensures var (session, left) := PasskeySessions.Taken(old(sessions.Contents()), sessionID, now);
      && sessions.Contents() == left
      && (session.None? ==> r == Err(SessionNotFound))
      && (session.Some? ==> Lists(offered, old(creds.byID), handle))
      && (session.Some? ==> r == LoginVerdict(handle, verify(session.value, handle, offered)))
    ensures r.Ok? ==> r.value.credential.id in OwnedBy(old(creds.byID), handle)
    ensures creds.byID ==
      if r.Ok? then old(creds.byID)[r.value.credential.id := Stored(handle, r.value.credential)] else old(creds.byID)
  {
    offered := [];
    var session := PasskeySessions.TakeSession(sessions, sessionID, now);
    if session.None? {
      return Err(SessionNotFound), offered;
    }
    var stored := creds.FindByUserHandle(handle);
    offered := stored;
    var verdict := verify(session.value, handle, stored);
    if verdict.Rejected? {
      return Err(VerificationFailed), offered;
    }
    var cred := Advanced(verdict.used, verdict.reported);
    var ok := creds.UpdateSignCount(cred.id, cred);
    if !ok {
      return Err(NotPersisted), offered;
    }
    return Ok(LoginResult(handle, cred)), offered;
  }

  /** The dependency asks for the credential the response names, and verifies against it or not at all. */
  method FinishDiscoverableLogin(sessions: MemoryStore<Session>, creds: MemoryCredentialStore, sessionID: string,
                                 rawID: string, now: int, verify: (Session, Stored) -> Option<nat>)
    returns (r: Result<LoginResult, Failure>)
    requires sessions.Valid() && KeyedById(creds.byID)
    modifies sessions, creds
    ensures sessions.Valid() && KeyedById(creds.byID)
    ensures var (session, left) := PasskeySessions.Taken(old(sessions.Contents()), sessionID, now);
      && sessions.Contents() == left
      && r == if session.None? then Err(SessionNotFound)
              else if rawID !in old(creds.byID) then Err(CredentialNotFound)
              else
                var named := old(creds.byID)[rawID];
                var reported := verify(session.value, named);
                if reported.None? then Err(VerificationFailed)
                else Ok(LoginResult(named.userHandle, Advanced(named.credential, reported.value)))
    ensures creds.byID ==
      if r.Ok? then old(creds.byID)[rawID := Stored(r.value.userHandle, r.value.credential)] else old(creds.byID)
  {
    var session := PasskeySessions.TakeSession(sessions, sessionID, now);
    if session.None? {
      return Err(SessionNotFound);
    }
    var stored := creds.FindByID(rawID);
    if stored.None? {
      return Err(CredentialNotFound);
    }
    var resolvedHandle := stored.value.userHandle;
    var reported := verify(session.value, stored.value);
    if reported.None? {
      return Err(VerificationFailed);
    }
    var cred := Advanced(stored.value.credential, reported.value);
    var ok := creds.UpdateSignCount(cred.id, cred);
    if !ok {
      return Err(NotPersisted);
    }
    return Ok(LoginResult(resolvedHandle, cred));
  }

  method FinishRegistration(sessions: MemoryStore<Session>, creds: MemoryCredentialStore, handle: string,
                            sessionID: string, now: int, verify: (Session, string) -> Option<Credential>)
    returns (r: Result<Credential, Failure>)
    requires sessions.Valid() && KeyedById(creds.byID)
    modifies sessions, creds
    ensures sessions.Valid() && KeyedById(creds.byID)
    ensures var (session, left) := PasskeySessions.Taken(old(sessions.Contents()), sessionID, now);
      && sessions.Contents() == left
      && r == if session.None? then Err(SessionNotFound)
              else
                var made := verify(session.value, handle);
                if made.None? then Err(VerificationFailed)
                else if made.value.id in old(creds.byID) then Err(NotPersisted)
                else Ok(made.value)
    ensures creds.byID == if r.Ok? then old(creds.byID)[r.value.id := Stored(handle, r.value)] else old(creds.byID)
  {
    var session := PasskeySessions.TakeSession(sessions, sessionID, now);
    if session.None? {
      return Err(SessionNotFound);
    }
    var cred := verify(session.value, handle);
    if cred.None? {
      return Err(VerificationFailed);
    }
    var ok := creds.Save(Stored(handle, cred.value));
    if !ok {
      return Err(NotPersisted);
    }
    return Ok(cred.value);
  }

  // ---------- Interleaved ceremonies ----------

  /**
   Where a ceremony stands. `version` is the number of writes the credential had
   seen when this ceremony read it; `base` is what it read.
   */
  datatype Phase =
    | Idle
    | TookLogin(handle: string)
    | Loaded(handle: string, records: Records, versions: map<string, nat>)
    | TookDiscoverable
    | Verifying(handle: string, base: Credential, reported: nat, version: nat)
    | TookRegistration(handle: string)
    | Saving(stored: Stored)
    | LoggedIn(result: LoginResult)
    | Registered(stored: Stored)
    | Failed

  /** `session` is the id this ceremony took, once it took one. */
  datatype Ceremony = Ceremony(session: Option<string>, phase: Phase)

  datatype World = World(issued: set<string>, sessions: set<string>, creds: Records,
                         versions: map<string, nat>, ceremonies: seq<Ceremony>)

  /** What a ceremony can do next. */
  datatype Move =
    | TakeLogin(id: string, handle: string)
    | Load
    | VerifyLogin(credentialID: string, reported: nat)
    | TakeDiscoverable(id: string)
    | VerifyDiscoverable(rawID: string, reported: nat)
    | Write(refused: bool)
    | TakeRegistration(id: string, handle: string)
    | VerifyRegistration(credential: Credential)
    | Save

  /** `Begin` parks a session under a fresh id; `Forget` is its expiry or eviction. */
  datatype Action = Begin(id: string) | Forget(id: string) | Do(c: nat, move: Move)

  function At(w: World, c: nat, phase: Phase): World
    requires c < |w.ceremonies|
  {
    w.(ceremonies := w.ceremonies[c := w.ceremonies[c].(phase := phase)])
  }

  /** Takes the session if it is there; otherwise the ceremony fails. */
  function TakeInto(w: World, c: nat, id: string, phase: Phase): World
    requires c < |w.ceremonies|
  {
    if id in w.sessions then
      w.(sessions := w.sessions - {id}, ceremonies := w.ceremonies[c := Ceremony(Some(id), phase)])
    else At(w, c, Failed)
  }

  function VersionOf(versions: map<string, nat>, id: string): nat {
    if id in versions then versions[id] else 0
  }

  /** The write-back; the store may refuse, and then nothing is written. */
  function Written(w: World, c: nat, refused: bool): World
    requires c < |w.ceremonies| && w.ceremonies[c].phase.Verifying?
  {
    var p := w.ceremonies[c].phase;
    var cred := Advanced(p.base, p.reported);
    var next := Updated(w.creds, cred.id, cred);
    if refused || next.None? then At(w, c, Failed)
    else
      At(w.(creds := next.value, versions := w.versions[cred.id := VersionOf(w.versions, cred.id) + 1]),
         c, LoggedIn(LoginResult(p.handle, cred)))
  }

  function SaveInto(w: World, c: nat, stored: Stored): World
    requires c < |w.ceremonies|
  {
    var next := Saved(w.creds, stored);
    if next.None? then At(w, c, Failed) else At(w.(creds := next.value), c, Registered(stored))
  }

  /** The next phase of a move that touches neither store, or None. */
  function Quiet(w: World, p: Phase, m: Move): Option<Phase> {
    if m.Load? && p.TookLogin? then Some(Loaded(p.handle, OwnedBy(w.creds, p.handle), w.versions))
    else if m.VerifyLogin? && p.Loaded? then
      if m.credentialID in p.records then
        Some(Verifying(p.handle, p.records[m.credentialID].credential, m.reported, VersionOf(p.versions, m.credentialID)))
      else Some(Failed)
    else if m.VerifyDiscoverable? && p.TookDiscoverable? then
      if m.rawID in w.creds then
        Some(Verifying(w.creds[m.rawID].userHandle, w.creds[m.rawID].credential, m.reported, VersionOf(w.versions, m.rawID)))
      else Some(Failed)
    else if m.VerifyRegistration? && p.TookRegistration? then Some(Saving(Stored(p.handle, m.credential)))
    else None
  }

  /** The session a move asks for and the phase it leads to, or None. */
  function Wanted(p: Phase, m: Move): Option<(string, Phase)> {
    if !p.Idle? then None
    else if m.TakeLogin? then Some((m.id, TookLogin(m.handle)))
    else if m.TakeDiscoverable? then Some((m.id, TookDiscoverable))
    else if m.TakeRegistration? then Some((m.id, TookRegistration(m.handle)))
    else None
  }

  /** One step; a step that is not possible leaves the world as it is. */
  function Step(w: World, a: Action): World {
    match a
    case Begin(id) =>
      if id in w.issued then w else w.(issued := w.issued + {id}, sessions := w.sessions + {id})
    case Forget(id) => w.(sessions := w.sessions - {id})
    case Do(c, m) =>
      if c >= |w.ceremonies| then w
      else
        var p := w.ceremonies[c].phase;
        if Wanted(p, m).Some? then TakeInto(w, c, Wanted(p, m).value.0, Wanted(p, m).value.1)
        else if Quiet(w, p, m).Some? then At(w, c, Quiet(w, p, m).value)
        else if m.Write? && p.Verifying? then Written(w, c, m.refused)
        else if m.Save? && p.Saving? then SaveInto(w, c, p.stored)
        else w
  }

  function Run(w: World, actions: seq<Action>): World {
    if actions == [] then w else Step(Run(w, actions[..|actions| - 1]), actions[|actions| - 1])
  }

  /** Moves of one ceremony with nothing in between. */
  function Moves(w: World, c: nat, moves: seq<Move>): World
    decreases |moves|
  {
    if moves == [] then w else Moves(Step(w, Do(c, moves[0])), c, moves[1..])
  }

  lemma MovesUnfold(w: World, c: nat, m: Move, rest: seq<Move>)
    ensures Moves(w, c, [m] + rest) == Moves(Step(w, Do(c, m)), c, rest)
  {
    assert ([m] + rest)[1..] == rest;
  }

  /** Alone, the moves of a login do what `FinishLogin` does for the verdict they carry. */
  lemma AloneIsFinishLogin(w: World, c: nat, id: string, handle: string, used: Credential, reported: nat)
    requires c < |w.ceremonies| && w.ceremonies[c].phase.Idle? && id in w.sessions && KeyedById(w.creds)
    requires used.id in OwnedBy(w.creds, handle) && w.creds[used.id].credential == used
    ensures var n := Moves(w, c, [TakeLogin(id, handle)] + ([Load] + ([VerifyLogin(used.id, reported)] + ([Write(false)] + []))));
      var r := LoginVerdict(handle, Verified(used, reported));
      && c < |n.ceremonies| && n.ceremonies[c].phase == LoggedIn(r.value) && n.sessions == w.sessions - {id}
      && n.creds == w.creds[used.id := Stored(handle, r.value.credential)]
  {
    var verified, write := VerifyLogin(used.id, reported), Write(false);
    MovesUnfold(w, c, TakeLogin(id, handle), [Load] + ([verified] + ([write] + [])));
    var w1 := Step(w, Do(c, TakeLogin(id, handle)));
    MovesUnfold(w1, c, Load, [verified] + ([write] + []));
    var w2 := Step(w1, Do(c, Load));
    MovesUnfold(w2, c, verified, [write] + []);
    var w3 := Step(w2, Do(c, verified));
    MovesUnfold(w3, c, write, []);
    assert w3.ceremonies[c].phase.Verifying? && w3.ceremonies[c].phase.base == used;
  }

  /** Alone, the moves of a discoverable login do what `FinishDiscoverableLogin` does. */
  lemma AloneIsFinishDiscoverableLogin(w: World, c: nat, id: string, rawID: string, reported: nat)
    requires c < |w.ceremonies| && w.ceremonies[c].phase.Idle? && id in w.sessions && KeyedById(w.creds) && rawID in w.creds
    ensures var n := Moves(w, c, [TakeDiscoverable(id)] + ([VerifyDiscoverable(rawID, reported)] + ([Write(false)] + [])));
      var result := LoginResult(w.creds[rawID].userHandle, Advanced(w.creds[rawID].credential, reported));
      && c < |n.ceremonies| && n.ceremonies[c].phase == LoggedIn(result) && n.sessions == w.sessions - {id}
      && n.creds == w.creds[rawID := Stored(result.userHandle, result.credential)]
  {
    var verified, write := VerifyDiscoverable(rawID, reported), Write(false);
    MovesUnfold(w, c, TakeDiscoverable(id), [verified] + ([write] + []));
    var w1 := Step(w, Do(c, TakeDiscoverable(id)));
    MovesUnfold(w1, c, verified, [write] + []);
    var w2 := Step(w1, Do(c, verified));
    MovesUnfold(w2, c, write, []);
    assert w2.ceremonies[c].phase.Verifying?;
  }

  /** Alone, the moves of a registration do what `FinishRegistration` does, success and refusal alike. */
  lemma AloneIsFinishRegistration(w: World, c: nat, id: string, handle: string, made: Credential)
    requires c < |w.ceremonies| && w.ceremonies[c].phase.Idle? && id in w.sessions
    ensures var n := Moves(w, c, [TakeRegistration(id, handle)] + ([VerifyRegistration(made)] + ([Save] + [])));
      var known := made.id in w.creds;
      && c < |n.ceremonies| && n.ceremonies[c].phase == (if known then Failed else Registered(Stored(handle, made)))
      && n.sessions == w.sessions - {id}
      && n.creds == if known then w.creds else w.creds[made.id := Stored(handle, made)]
  {
    MovesUnfold(w, c, TakeRegistration(id, handle), [VerifyRegistration(made)] + ([Save] + []));
    var w1 := Step(w, Do(c, TakeRegistration(id, handle)));
    MovesUnfold(w1, c, VerifyRegistration(made), [Save] + []);
    var w2 := Step(w1, Do(c, VerifyRegistration(made)));
    MovesUnfold(w2, c, Save, []);
  }

  ghost predicate Initial(w: World) {
    && w.issued == {} && w.sessions == {} && w.creds == map[] && w.versions == map[]
    && forall i :: 0 <= i < |w.ceremonies| ==> w.ceremonies[i] == Ceremony(None, Idle)
  }

  // ---------- What every run keeps ----------

  predicate Owns(creds: Records, handle: string, id: string) {
    id in creds && creds[id].userHandle == handle
  }

  /** What a ceremony read is still there under the same owner, and unchanged unless someone wrote since. */
  ghost predicate ReadStands(w: World, handle: string, base: Credential, version: nat) {
    && Owns(w.creds, handle, base.id)
    && version <= VersionOf(w.versions, base.id)
    && (version == VersionOf(w.versions, base.id) ==> w.creds[base.id].credential == base)
  }

  ghost predicate PhaseOk(w: World, p: Phase) {
    match p
    case Loaded(handle, records, versions) =>
      forall id :: id in records ==>
        records[id].credential.id == id && ReadStands(w, handle, records[id].credential, VersionOf(versions, id))
    case Verifying(handle, base, _, version) => ReadStands(w, handle, base, version)
    case LoggedIn(result) => Owns(w.creds, result.userHandle, result.credential.id)
    case Registered(stored) => Owns(w.creds, stored.userHandle, stored.credential.id)
    case _ => true
  }

  /** A session a ceremony took was issued and is gone; a ceremony past its take has one. */
  ghost predicate TookOk(w: World, c: Ceremony) {
    if c.session.Some? then c.session.value in w.issued && c.session.value !in w.sessions
    else c.phase.Idle? || c.phase.Failed?
  }

  ghost predicate SessionsSingleUse(w: World) {
    && w.sessions <= w.issued
    && (forall i :: 0 <= i < |w.ceremonies| ==> TookOk(w, w.ceremonies[i]))
    && forall i, j :: 0 <= i < j < |w.ceremonies| && w.ceremonies[i].session.Some? ==>
          w.ceremonies[i].session != w.ceremonies[j].session
  }

  ghost predicate Inv(w: World) {
    && KeyedById(w.creds)
    && SessionsSingleUse(w)
    && forall i :: 0 <= i < |w.ceremonies| ==> PhaseOk(w, w.ceremonies[i].phase)
  }

  /** No step removes a credential or changes its owner, and versions only grow. */
  ghost predicate OwnersKept(before: World, after: World) {
    && (forall id :: id in before.creds ==> id in after.creds && after.creds[id].userHandle == before.creds[id].userHandle)
    && (forall id :: VersionOf(before.versions, id) <= VersionOf(after.versions, id))
    && (forall id :: id in before.creds && VersionOf(before.versions, id) == VersionOf(after.versions, id)
          ==> after.creds[id] == before.creds[id])
  }

  lemma StepKeepsOwners(w: World, a: Action)
    ensures OwnersKept(w, Step(w, a))
  {
    if a.Do? && a.c < |w.ceremonies| && a.move.Write? && w.ceremonies[a.c].phase.Verifying? {
    } else {
      var w' := Step(w, a);
      assert w'.versions == w.versions;
      assert forall id :: id in w.creds ==> id in w'.creds && w'.creds[id] == w.creds[id];
    }
  }

  lemma OwnersKeptKeepsPhase(before: World, after: World, p: Phase)
    requires OwnersKept(before, after) && PhaseOk(before, p)
    ensures PhaseOk(after, p)
  {
    if p.Loaded? {
      forall id | id in p.records
        ensures p.records[id].credential.id == id
                && ReadStands(after, p.handle, p.records[id].credential, VersionOf(p.versions, id))
      {
        assert ReadStands(before, p.handle, p.records[id].credential, VersionOf(p.versions, id));
      }
    }
  }

  /** Taking a session that is there: nobody else has it. */
  lemma TakeKeepsSessions(w: World, c: nat, id: string, phase: Phase)
    requires SessionsSingleUse(w) && c < |w.ceremonies| && id in w.sessions && w.ceremonies[c].phase.Idle?
    ensures SessionsSingleUse(TakeInto(w, c, id, phase))
  {
    var w' := TakeInto(w, c, id, phase);
    forall i | 0 <= i < |w.ceremonies| ensures TookOk(w', w'.ceremonies[i]) {
      assert TookOk(w, w.ceremonies[i]);
    }
    forall i | 0 <= i < |w.ceremonies| && i != c ensures w.ceremonies[i].session != Some(id) {
      assert TookOk(w, w.ceremonies[i]);
    }
  }

  /** A step that leaves the sessions alone and only changes the phase of a ceremony that has one, or fails it. */
  lemma PhaseChangeKeepsSessions(w: World, w': World, c: nat)
    requires SessionsSingleUse(w) && c < |w.ceremonies| && w'.issued == w.issued && w'.sessions == w.sessions
    requires exists p :: w'.ceremonies == w.ceremonies[c := w.ceremonies[c].(phase := p)]
    requires w.ceremonies[c].session.Some? || w'.ceremonies[c].phase.Failed?
    ensures SessionsSingleUse(w')
  {
    forall i | 0 <= i < |w.ceremonies| ensures TookOk(w', w'.ceremonies[i]) && w'.ceremonies[i].session == w.ceremonies[i].session {
      assert TookOk(w, w.ceremonies[i]);
    }
  }

  lemma StepKeepsSessions(w: World, a: Action)
    requires SessionsSingleUse(w)
    ensures SessionsSingleUse(Step(w, a))
  {
    var w' := Step(w, a);
    if !a.Do? {
      forall i | 0 <= i < |w.ceremonies| ensures TookOk(w', w.ceremonies[i]) {
        assert TookOk(w, w.ceremonies[i]);
      }
    } else if a.c < |w.ceremonies| {
      var p := w.ceremonies[a.c].phase;
      assert TookOk(w, w.ceremonies[a.c]);
      if Wanted(p, a.move).Some? && Wanted(p, a.move).value.0 in w.sessions {
        TakeKeepsSessions(w, a.c, Wanted(p, a.move).value.0, Wanted(p, a.move).value.1);
      } else if w' != w {
        assert w'.ceremonies == w.ceremonies[a.c := w.ceremonies[a.c].(phase := w'.ceremonies[a.c].phase)];
        PhaseChangeKeepsSessions(w, w', a.c);
      }
    }
  }

  /** The phase a ceremony's own step leaves it in is sound. */
  lemma OwnStepOk(w: World, a: Action)
    requires Inv(w) && a.Do? && a.c < |w.ceremonies|
    ensures var w' := Step(w, a); KeyedById(w'.creds) && PhaseOk(w', w'.ceremonies[a.c].phase)
  {
    var p := w.ceremonies[a.c].phase;
    assert PhaseOk(w, p);
    if Wanted(p, a.move).None? && Quiet(w, p, a.move).Some? {
      OwnersKeptKeepsPhase(w, Step(w, a), Quiet(w, p, a.move).value);
    }
  }

  lemma StepKeepsInv(w: World, a: Action)
    requires Inv(w)
    ensures Inv(Step(w, a)) && |Step(w, a).ceremonies| == |w.ceremonies|
  {
    var w' := Step(w, a);
    StepKeepsSessions(w, a);
    if a.Do? && a.c < |w.ceremonies| {
      OwnStepOk(w, a);
    }
    forall i | 0 <= i < |w'.ceremonies| ensures PhaseOk(w', w'.ceremonies[i].phase) {
      if !a.Do? || i != a.c {
        OtherPhaseOk(w, a, i);
      }
    }
  }

  lemma OtherPhaseOk(w: World, a: Action, i: nat)
    requires Inv(w) && i < |w.ceremonies| && (a.Do? ==> i != a.c)
    ensures i < |Step(w, a).ceremonies| && PhaseOk(Step(w, a), Step(w, a).ceremonies[i].phase)
  {
    StepKeepsOwners(w, a);
    OwnersKeptKeepsPhase(w, Step(w, a), w.ceremonies[i].phase);
  }

  lemma {:induction false} RunKeepsInv(w: World, actions: seq<Action>)
    requires Initial(w) || Inv(w)
    ensures Inv(Run(w, actions)) && |Run(w, actions).ceremonies| == |w.ceremonies|
  {
    if actions != [] {
      RunKeepsInv(w, actions[..|actions| - 1]);
      StepKeepsInv(Run(w, actions[..|actions| - 1]), actions[|actions| - 1]);
    }
  }

  /**
   In every interleaving: each credential sits under its own id, every login result
   names the stored owner of the credential it used, and no session served two ceremonies.
   */
  lemma LoginsNameTheOwner(w: World, actions: seq<Action>, i: nat)
    requires Initial(w) && i < |w.ceremonies|
    ensures var w' := Run(w, actions);
      && KeyedById(w'.creds) && |w'.ceremonies| == |w.ceremonies|
      && (w'.ceremonies[i].phase.LoggedIn? ==>
            var r := w'.ceremonies[i].phase.result; Owns(w'.creds, r.userHandle, r.credential.id))
      && (w'.ceremonies[i].session.Some? ==>
            forall j :: 0 <= j < |w'.ceremonies| && j != i ==> w'.ceremonies[j].session != w'.ceremonies[i].session)
  {
    RunKeepsInv(w, actions);
    assert PhaseOk(Run(w, actions), Run(w, actions).ceremonies[i].phase);
  }

  /** Once saved, a credential never changes owner and never disappears. */
  lemma {:induction false} OwnershipIsPermanent(w: World, actions: seq<Action>, id: string)
    requires id in w.creds
    ensures id in Run(w, actions).creds && Run(w, actions).creds[id].userHandle == w.creds[id].userHandle
  {
    if actions != [] {
      OwnershipIsPermanent(w, actions[..|actions| - 1], id);
      StepKeepsOwners(Run(w, actions[..|actions| - 1]), actions[|actions| - 1]);
    }
  }

  /**
   A write-back succeeds unless the store refuses it: the record is always still there. Refused, it
   gives no result and changes no record. Either way its session is already gone for good.
   */
  lemma RefusalConsumesSession(w: World, actions: seq<Action>, c: nat, refused: bool)
    requires Initial(w) && c < |w.ceremonies|
    requires |Run(w, actions).ceremonies| == |w.ceremonies| && Run(w, actions).ceremonies[c].phase.Verifying?
    ensures var before := Run(w, actions); var after := Step(before, Do(c, Write(refused)));
      && (after.ceremonies[c].phase == Failed <==> refused) && (after.ceremonies[c].phase.LoggedIn? <==> !refused)
      && (refused ==> after.creds == before.creds)
      && after.ceremonies[c].session.Some?
      && forall later :: after.ceremonies[c].session.value !in Run(after, later).sessions
  {
    RunKeepsInv(w, actions);
    var before := Run(w, actions);
    assert PhaseOk(before, before.ceremonies[c].phase);
    var after := Step(before, Do(c, Write(refused)));
    StepKeepsSessions(before, Do(c, Write(refused)));
    assert TookOk(after, after.ceremonies[c]);
    forall later ensures after.ceremonies[c].session.value !in Run(after, later).sessions {
      TakenNeverReturns(after, later, after.ceremonies[c].session.value);
    }
  }

  lemma TakenStaysTaken(w: World, a: Action, id: string)
    requires id in w.issued && id !in w.sessions
    ensures id in Step(w, a).issued && id !in Step(w, a).sessions
  {
  }

  lemma {:induction false} TakenNeverReturns(w: World, actions: seq<Action>, id: string)
    requires id in w.issued && id !in w.sessions
    ensures id in Run(w, actions).issued && id !in Run(w, actions).sessions
  {
    if actions != [] {
      TakenNeverReturns(w, actions[..|actions| - 1], id);
      TakenStaysTaken(Run(w, actions[..|actions| - 1]), actions[|actions| - 1], id);
    }
  }

  // ---------- A ceremony spread over a run ----------

  predicate OthersOnly(actions: seq<Action>, c: nat) {
    forall k :: 0 <= k < |actions| ==> actions[k].Do? ==> actions[k].c != c
  }

  lemma {:induction false} OthersLeaveIt(w: World, actions: seq<Action>, c: nat)
    requires c < |w.ceremonies| && OthersOnly(actions, c)
    ensures var n := Run(w, actions); |n.ceremonies| == |w.ceremonies| && n.ceremonies[c] == w.ceremonies[c]
  {
    if actions != [] {
      var front, last := actions[..|actions| - 1], actions[|actions| - 1];
      OthersLeaveIt(w, front, c);
      OtherLeavesIt(Run(w, front), last, c);
    }
  }

  lemma OtherLeavesIt(w: World, a: Action, c: nat)
    requires c < |w.ceremonies| && (a.Do? ==> a.c != c)
    ensures |Step(w, a).ceremonies| == |w.ceremonies| && Step(w, a).ceremonies[c] == w.ceremonies[c]
  {
  }

  /** A verified login writes back what it read, advanced, whatever others have written since. */
  lemma WriteIsOfWhatWasRead(w: World, c: nat, others: seq<Action>, refused: bool)
    requires Inv(w) && c < |w.ceremonies| && w.ceremonies[c].phase.Verifying? && OthersOnly(others, c)
    ensures var (p, before) := (w.ceremonies[c].phase, Run(w, others)); var n := Step(before, Do(c, Write(refused)));
      var r := LoginVerdict(p.handle, Verified(p.base, p.reported)).value;
      && c < |n.ceremonies| && n.ceremonies[c].phase == (if refused then Failed else LoggedIn(r))
      && n.creds == if refused then before.creds else before.creds[p.base.id := Stored(p.handle, r.credential)]
  {
    OthersLeaveIt(w, others, c);
    RunKeepsInv(w, others);
    assert PhaseOk(Run(w, others), Run(w, others).ceremonies[c].phase);
  }

  /** Ceremony `c`, in writing, is the login of `handle` with credential `id` of the records read. */
  ghost predicate LoginIsOf(before: World, after: World, c: nat, handle: string, read: Records, id: string,
                            reported: nat, refused: bool)
  {
    && c < |after.ceremonies|
    && if id in OwnedBy(read, handle) && !refused then
         var r := LoginVerdict(handle, Verified(read[id].credential, reported)).value;
         after.ceremonies[c].phase == LoggedIn(r) && after.creds == before.creds[id := Stored(handle, r.credential)]
       else after.ceremonies[c].phase == Failed && after.creds == before.creds
  }

  /**
   A login, spread over the run in any way, is `FinishLogin` on the records as they were when it loaded
   them, and its write-back goes to the records as they are when it writes.
   */
  lemma SpreadIsFinishLogin(w: World, c: nat, session: string, handle: string, id: string, reported: nat, refused: bool,
                            first: seq<Action>, second: seq<Action>, third: seq<Action>)
    requires Inv(w) && c < |w.ceremonies| && w.ceremonies[c].phase.Idle? && session in w.sessions
    requires OthersOnly(first, c) && OthersOnly(second, c) && OthersOnly(third, c)
    ensures var loading := Run(Step(w, Do(c, TakeLogin(session, handle))), first);
      var verifying := Run(Step(loading, Do(c, Load)), second);
      var writing := Run(Step(verifying, Do(c, VerifyLogin(id, reported))), third);
      LoginIsOf(writing, Step(writing, Do(c, Write(refused))), c, handle, loading.creds, id, reported, refused)
  {
    var w1 := Step(w, Do(c, TakeLogin(session, handle)));
    StepKeepsInv(w, Do(c, TakeLogin(session, handle)));
    OthersLeaveIt(w1, first, c);
    RunKeepsInv(w1, first);
    var loading := Run(w1, first);
    SpreadFromLoad(loading, c, handle, id, reported, refused, second, third);
  }

  lemma SpreadFromLoad(w: World, c: nat, handle: string, id: string, reported: nat, refused: bool,
                       second: seq<Action>, third: seq<Action>)
    requires Inv(w) && c < |w.ceremonies| && w.ceremonies[c].phase == TookLogin(handle)
    requires OthersOnly(second, c) && OthersOnly(third, c)
    ensures var verifying := Run(Step(w, Do(c, Load)), second);
      var writing := Run(Step(verifying, Do(c, VerifyLogin(id, reported))), third);
      LoginIsOf(writing, Step(writing, Do(c, Write(refused))), c, handle, w.creds, id, reported, refused)
  {
    var w1 := Step(w, Do(c, Load));
    StepKeepsInv(w, Do(c, Load));
    OthersLeaveIt(w1, second, c);
    RunKeepsInv(w1, second);
    var verifying := Run(w1, second);
    var w2 := Step(verifying, Do(c, VerifyLogin(id, reported)));
    StepKeepsInv(verifying, Do(c, VerifyLogin(id, reported)));
    if id in OwnedBy(w.creds, handle) {
      WriteIsOfWhatWasRead(w2, c, third, refused);
    } else {
      OthersLeaveIt(w2, third, c);
    }
  }

  /** The same for a discoverable login, on the record as it was when it was looked up. */
  lemma SpreadIsFinishDiscoverableLogin(w: World, c: nat, session: string, rawID: string, reported: nat, refused: bool,
                                        first: seq<Action>, second: seq<Action>)
    requires Inv(w) && c < |w.ceremonies| && w.ceremonies[c].phase.Idle? && session in w.sessions
    requires OthersOnly(first, c) && OthersOnly(second, c)
    ensures var looking := Run(Step(w, Do(c, TakeDiscoverable(session))), first);
      var writing := Run(Step(looking, Do(c, VerifyDiscoverable(rawID, reported))), second);
      var done := Step(writing, Do(c, Write(refused)));
      if rawID in looking.creds then
        LoginIsOf(writing, done, c, looking.creds[rawID].userHandle, looking.creds, rawID, reported, refused)
      else c < |done.ceremonies| && done.ceremonies[c].phase == Failed && done.creds == writing.creds
  {
    var w1 := Step(w, Do(c, TakeDiscoverable(session)));
    StepKeepsInv(w, Do(c, TakeDiscoverable(session)));
    OthersLeaveIt(w1, first, c);
    RunKeepsInv(w1, first);
    var looking := Run(w1, first);
    var w2 := Step(looking, Do(c, VerifyDiscoverable(rawID, reported)));
    StepKeepsInv(looking, Do(c, VerifyDiscoverable(rawID, reported)));
    if rawID in looking.creds {
      WriteIsOfWhatWasRead(w2, c, second, refused);
    } else {
      OthersLeaveIt(w2, second, c);
    }
  }

  // ---------- The counter ----------

  function CountOf(w: World, id: string): nat {
    if id in w.creds then w.creds[id].credential.signCount else 0
  }

  /**
   An accepted write-back of a login whose result is below what the store now holds. A store can
   see this before it writes: both counters are in its hands.
   */
  predicate Lowers(w: World, a: Action, id: string) {
    && a.Do? && a.move.Write? && !a.move.refused && a.c < |w.ceremonies|
    && var p := w.ceremonies[a.c].phase;
      p.Verifying? && p.base.id == id && CountOf(w, id) > p.base.signCount && CountOf(w, id) > p.reported
  }

  /** One step lowers a stored counter exactly when it is such a write-back. */
  lemma CounterFallsExactlyWhen(w: World, a: Action, id: string)
    requires Inv(w) && id in w.creds
    ensures id in Step(w, a).creds && (CountOf(Step(w, a), id) < CountOf(w, id) <==> Lowers(w, a, id))
  {
    StepKeepsOwners(w, a);
    if a.Do? && a.c < |w.ceremonies| {
      assert PhaseOk(w, w.ceremonies[a.c].phase);
    }
  }

  /** Over the run, the counter never falls from one step to the next. */
  ghost predicate NeverFalls(w: World, actions: seq<Action>, id: string) {
    forall n :: 0 <= n < |actions| ==> CountOf(Run(w, actions[..n]), id) <= CountOf(Step(Run(w, actions[..n]), actions[n]), id)
  }

  ghost predicate NeverLowers(w: World, actions: seq<Action>, id: string) {
    forall n :: 0 <= n < |actions| ==> !Lowers(Run(w, actions[..n]), actions[n], id)
  }

  /** Over every run, exactly: the counter never falls if and only if no step is such a write-back. */
  lemma CounterMonotoneExactlyWhen(w: World, actions: seq<Action>, id: string)
    requires Initial(w) || Inv(w)
    ensures NeverFalls(w, actions, id) <==> NeverLowers(w, actions, id)
  {
    forall n | 0 <= n < |actions|
      ensures CountOf(Run(w, actions[..n]), id) <= CountOf(Step(Run(w, actions[..n]), actions[n]), id)
         <==> !Lowers(Run(w, actions[..n]), actions[n], id)
    {
      var before := Run(w, actions[..n]);
      RunKeepsInv(w, actions[..n]);
      if id in before.creds {
        CounterFallsExactlyWhen(before, actions[n], id);
      }
    }
  }

  lemma {:induction false} NeverFallsEndsHigher(w: World, actions: seq<Action>, id: string)
    requires NeverFalls(w, actions, id)
    ensures CountOf(Run(w, actions), id) >= CountOf(w, id)
  {
    if actions != [] {
      var front, n := actions[..|actions| - 1], |actions| - 1;
      forall m | 0 <= m < |front|
        ensures CountOf(Run(w, front[..m]), id) <= CountOf(Step(Run(w, front[..m]), front[m]), id)
      {
        assert front[..m] == actions[..m];
      }
      NeverFallsEndsHigher(w, front, id);
      assert actions[..n] == front;
    }
  }

  /** This step is not a write-back that another one overtook. */
  predicate NotOvertaken(w: World, a: Action) {
    a.Do? && a.move.Write? && a.c < |w.ceremonies| && w.ceremonies[a.c].phase.Verifying? ==>
      var p := w.ceremonies[a.c].phase; p.version == VersionOf(w.versions, p.base.id)
  }

  /** In particular, with no overlapping logins on one credential no stored counter ever decreases. */
  lemma CounterNeverDecreases(w: World, actions: seq<Action>, id: string)
    requires Initial(w) || Inv(w)
    requires forall n :: 0 <= n < |actions| ==> NotOvertaken(Run(w, actions[..n]), actions[n])
    ensures NeverFalls(w, actions, id) && CountOf(Run(w, actions), id) >= CountOf(w, id)
  {
    forall n | 0 <= n < |actions| ensures !Lowers(Run(w, actions[..n]), actions[n], id) {
      RunKeepsInv(w, actions[..n]);
    }
    CounterMonotoneExactlyWhen(w, actions, id);
    NeverFallsEndsHigher(w, actions, id);
  }

  // ---------- A run in which the counter falls ----------

  /** Some run from the beginning ends in this world. */
  ghost predicate Reachable(w: World) {
    exists start, actions :: Initial(start) && Run(start, actions) == w
  }

  lemma StepsReach(w: World, a: Action)
    requires Reachable(w)
    ensures Reachable(Step(w, a))
  {
    var start, actions :| Initial(start) && Run(start, actions) == w;
    assert (actions + [a])[..|actions|] == actions;
    assert Run(start, actions + [a]) == Step(w, a);
  }

  function TakenBy(w: World, c: nat, session: string, phase: Phase): World
    requires c < |w.ceremonies|
  {
    w.(issued := w.issued + {session}, sessions := w.sessions - {session},
       ceremonies := w.ceremonies[c := Ceremony(Some(session), phase)])
  }

  /** A fresh session is begun and taken. */
  lemma TakingReaches(w: World, c: nat, session: string, take: Move, phase: Phase)
    requires Reachable(w) && c < |w.ceremonies| && w.ceremonies[c].phase.Idle? && session !in w.issued
    requires Wanted(Idle, take) == Some((session, phase))
    ensures Reachable(TakenBy(w, c, session, phase))
  {
    StepsReach(w, Begin(session));
    StepsReach(Step(w, Begin(session)), Do(c, take));
    assert w.sessions + {session} - {session} == w.sessions - {session};
  }

  lemma QuietlyReaches(w: World, c: nat, session: string, p: Phase, m: Move, q: Phase)
    requires c < |w.ceremonies| && Reachable(TakenBy(w, c, session, p))
    requires !p.Idle? && Quiet(TakenBy(w, c, session, p), p, m) == Some(q)
    ensures Reachable(TakenBy(w, c, session, q))
  {
    StepsReach(TakenBy(w, c, session, p), Do(c, m));
  }

  /** A fresh session, a registration under it, and the credential is stored. */
  lemma RegistrationReaches(w: World, c: nat, session: string, made: Credential)
    requires Reachable(w) && c < |w.ceremonies| && w.ceremonies[c].phase.Idle? && session !in w.issued && made.id !in w.creds
    ensures Reachable(TakenBy(w, c, session, Registered(Stored("h", made))).(creds := w.creds[made.id := Stored("h", made)]))
  {
    TakingReaches(w, c, session, TakeRegistration(session, "h"), TookRegistration("h"));
    QuietlyReaches(w, c, session, TookRegistration("h"), VerifyRegistration(made), Saving(Stored("h", made)));
    StepsReach(TakenBy(w, c, session, Saving(Stored("h", made))), Do(c, Save));
  }

  /** A fresh session, and a login that has taken it, loaded and verified but not yet written. */
  lemma LoginReaches(w: World, c: nat, session: string, base: Credential, reported: nat)
    requires Reachable(w) && c < |w.ceremonies| && w.ceremonies[c].phase.Idle? && session !in w.issued
    requires base.id in w.creds && w.creds[base.id] == Stored("h", base)
    ensures Reachable(TakenBy(w, c, session, Verifying("h", base, reported, VersionOf(w.versions, base.id))))
  {
    TakingReaches(w, c, session, TakeLogin(session, "h"), TookLogin("h"));
    var loaded := Loaded("h", OwnedBy(w.creds, "h"), w.versions);
    QuietlyReaches(w, c, session, TookLogin("h"), Load, loaded);
    assert base.id in loaded.records;
    QuietlyReaches(w, c, session, loaded, VerifyLogin(base.id, reported),
                   Verifying("h", base, reported, VersionOf(w.versions, base.id)));
  }

  /** Two logins both read a record; the one that reported less writes last. */
  lemma WritesCross(w: World, base: Credential, high: nat, low: nat)
    requires Reachable(w) && |w.ceremonies| == 3 && base.id in w.creds && w.creds[base.id].credential == base
    requires w.ceremonies[1].phase.Verifying? && w.ceremonies[1].phase.base == base && w.ceremonies[1].phase.reported == high
    requires w.ceremonies[2].phase.Verifying? && w.ceremonies[2].phase.base == base && w.ceremonies[2].phase.reported == low
    requires base.signCount < low < high
    ensures var w1 := Step(w, Do(1, Write(false)));
      && Reachable(w1) && Lowers(w1, Do(2, Write(false)), base.id)
      && CountOf(w1, base.id) == high && CountOf(Step(w1, Do(2, Write(false))), base.id) == low
  {
    StepsReach(w, Do(1, Write(false)));
    assert Step(w, Do(1, Write(false))).ceremonies[2] == w.ceremonies[2];
  }

  /** So one registration and two overlapping logins reach a world in which a write-back lowers the counter. */
  lemma OvertakenWriteLowersCounter()
    ensures exists w, a, id :: Reachable(w) && Lowers(w, a, id) && CountOf(Step(w, a), id) < CountOf(w, id)
  {
    var idle := Ceremony(None, Idle);
    var start := World({}, {}, map[], map[], [idle, idle, idle]);
    assert Run(start, []) == start && Initial(start);
    var base := Credential("k", 1, false);
    RegistrationReaches(start, 0, "r", base);
    var w := TakenBy(start, 0, "r", Registered(Stored("h", base))).(creds := start.creds["k" := Stored("h", base)]);
    LoginReaches(w, 1, "s", base, 5);
    var w1 := TakenBy(w, 1, "s", Verifying("h", base, 5, 0));
    LoginReaches(w1, 2, "t", base, 2);
    var w2 := TakenBy(w1, 2, "t", Verifying("h", base, 2, 0));
    WritesCross(w2, base, 5, 2);
    var w3, a := Step(w2, Do(1, Write(false))), Do(2, Write(false));
    assert Reachable(w3) && Lowers(w3, a, base.id);
  }
}
