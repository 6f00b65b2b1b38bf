/**
 Concurrent validations over one replay cache (saml/validate.go, saml/replay.go).
 A validation passes through separate steps; other validations, their sweeps and
 the passing of time may fall between any two of them.
 */
module ReplayProtocol {
  import opened Common
  import opened SamlAssertion
  import opened SamlValidate
  import opened ReplayCache

  /** `checked` is when the dependency accepted; `now` is the possibly stale time handed to the cache. */
  datatype Phase =
    | Waiting
    | Checked(checked: int)
    | Stamped(checked: int, expiry: int)
    | Timed(checked: int, expiry: int, now: int)
    | Succeeded(checked: int, expiry: int, committed: int)
    | Failed

  datatype Validation = Validation(assertion: Accepted, phase: Phase)

  datatype World = World(clock: int, items: Records, validations: seq<Validation>)

  /** `Stamp` carries the expiry that `expiryFor` computes at its own clock reading. */
  datatype Action = Tick(d: nat) | Check(v: nat) | Stamp(v: nat, expiry: int) | ReadClock(v: nat) | Commit(v: nat)

  datatype Setup = Setup(capacity: nat, skew: int, margin: int, strict: bool)

  /** Assumed of the dependency: it accepts no later than some stated bound plus the skew. */
  ghost predicate AcceptsAt(a: Accepted, skew: int, t: int) {
    exists b :: Bound(a, b) && t <= b + skew
  }

  /** Not refused between the parser and the cache. */
  ghost predicate Presentable(p: Setup, a: Accepted) {
    a.id != "" && !(p.strict && Conflict(AllAttributes(a.statements)))
  }

  function Moved(w: World, v: nat, phase: Phase): World
    requires v < |w.validations|
  {
    w.(validations := w.validations[v := w.validations[v].(phase := phase)])
  }

  /** One step; a step that is not possible leaves the world as it is. */
  ghost function Step(p: Setup, w: World, action: Action): World {
    if action.Tick? then w.(clock := w.clock + action.d)
    else if action.v >= |w.validations| then w
    else
      var v, a, phase := action.v, w.validations[action.v].assertion, w.validations[action.v].phase;
      if action.Check? && phase.Waiting? then
        Moved(w, v, if AcceptsAt(a, p.skew, w.clock) && Presentable(p, a) then Checked(w.clock) else Failed)
      else if action.Stamp? && phase.Checked? && IsExpiry(a, w.clock, p.skew, p.margin, action.expiry) then
        Moved(w, v, Stamped(phase.checked, action.expiry))
      else if action.ReadClock? && phase.Stamped? then
        Moved(w, v, Timed(phase.checked, phase.expiry, w.clock))
      else if action.Commit? && phase.Timed? then
        var (outcome, items) := Decide(w.items, p.capacity, a.id, phase.expiry, phase.now);
        Moved(w.(items := items), v,
              if outcome == Admitted then Succeeded(phase.checked, phase.expiry, w.clock) else Failed)
      else w
  }

  ghost function Run(p: Setup, w: World, actions: seq<Action>): World {
    if actions == [] then w
    else Step(p, Run(p, w, actions[..|actions| - 1]), actions[|actions| - 1])
  }

  ghost predicate Initial(w: World) {
    w.items == map[] && forall v :: v in w.validations ==> v.phase.Waiting?
  }

  // ---------- What every run keeps ----------

  /** Every stated bound, plus skew plus margin, is covered by the recorded expiry. */
  ghost predicate Covers(p: Setup, a: Accepted, expiry: int) {
    forall b :: Bound(a, b) ==> expiry >= b + p.skew + p.margin
  }

  ghost predicate PhaseOk(p: Setup, w: World, v: Validation) {
    match v.phase
    case Waiting => true
    case Failed => true
    case Checked(t) => AcceptsAt(v.assertion, p.skew, t) && Presentable(p, v.assertion)
    case Stamped(t, e) => AcceptsAt(v.assertion, p.skew, t) && Presentable(p, v.assertion) && Covers(p, v.assertion, e)
    case Timed(t, e, now) =>
      AcceptsAt(v.assertion, p.skew, t) && Presentable(p, v.assertion) && Covers(p, v.assertion, e) && now <= w.clock
    case Succeeded(t, e, _) =>
      && Covers(p, v.assertion, e)
      && (w.clock >= e || (v.assertion.id in w.items && w.items[v.assertion.id] == e))
  }

  /** The commit came a whole margin or more after the dependency's check. */
  predicate Late(p: Setup, v: Validation)
    requires v.phase.Succeeded?
  {
    v.phase.committed - v.phase.checked >= p.margin
  }

  /** Of two successes for one assertion, one was late. */
  ghost predicate OneIsLate(p: Setup, w: World) {
    forall i, j :: 0 <= i < |w.validations| && 0 <= j < |w.validations| && i != j
      && w.validations[i].phase.Succeeded? && w.validations[j].phase.Succeeded?
      && w.validations[i].assertion == w.validations[j].assertion
      ==> Late(p, w.validations[i]) || Late(p, w.validations[j])
  }

  ghost predicate Inv(p: Setup, w: World) {
    && |w.items| <= p.capacity
    && (forall i :: 0 <= i < |w.validations| ==> PhaseOk(p, w, w.validations[i]))
    && OneIsLate(p, w)
  }

  lemma CommitKeepsPhases(p: Setup, w: World, v: nat, i: nat)
    requires Inv(p, w) && v < |w.validations| && w.validations[v].phase.Timed? && i < |w.validations|
    ensures var w' := Step(p, w, Commit(v)); PhaseOk(p, w', w'.validations[i])
  {
    var a, phase := w.validations[v].assertion, w.validations[v].phase;
    assert PhaseOk(p, w, w.validations[v]) && PhaseOk(p, w, w.validations[i]);
    var other := w.validations[i];
    if i != v && other.phase.Succeeded? && w.clock < other.phase.expiry {
    }
  }

  /** While an earlier success of the same assertion is remembered, only a late commit can succeed. */
  lemma SecondSuccessIsLate(p: Setup, w: World, v: nat, i: nat)
    requires Inv(p, w) && v < |w.validations| && w.validations[v].phase.Timed? && i < |w.validations|
    requires w.validations[i].phase.Succeeded? && w.validations[i].assertion == w.validations[v].assertion
    ensures var w' := Step(p, w, Commit(v));
      w'.validations[v].phase.Succeeded? ==> Late(p, w'.validations[v])
  {
    var first, second := w.validations[i], w.validations[v];
    assert PhaseOk(p, w, first) && PhaseOk(p, w, second);
    if w.clock >= first.phase.expiry {
      var b :| Bound(second.assertion, b) && second.phase.checked <= b + p.skew;
      assert first.phase.expiry >= b + p.skew + p.margin;
    }
  }

  lemma CommitKeepsInv(p: Setup, w: World, v: nat)
    requires Inv(p, w) && v < |w.validations| && w.validations[v].phase.Timed?
    ensures Inv(p, Step(p, w, Commit(v)))
  {
    var w' := Step(p, w, Commit(v));
    var a, phase := w.validations[v].assertion, w.validations[v].phase;
    CapacityKept(w.items, p.capacity, a.id, phase.expiry, phase.now);
    forall i | 0 <= i < |w'.validations| ensures PhaseOk(p, w', w'.validations[i]) {
      CommitKeepsPhases(p, w, v, i);
    }
    forall i | 0 <= i < |w.validations| && i != v && w.validations[i].phase.Succeeded?
               && w.validations[i].assertion == a && w'.validations[v].phase.Succeeded?
      ensures Late(p, w'.validations[v])
    {
      SecondSuccessIsLate(p, w, v, i);
    }
  }

  lemma StepKeepsInv(p: Setup, w: World, action: Action)
    requires Inv(p, w)
    ensures Inv(p, Step(p, w, action))
  {
    if action.Commit? && action.v < |w.validations| && w.validations[action.v].phase.Timed? {
      CommitKeepsInv(p, w, action.v);
    } else {
      var w' := Step(p, w, action);
      forall i | 0 <= i < |w'.validations| ensures PhaseOk(p, w', w'.validations[i]) {
        assert PhaseOk(p, w, w.validations[i]);
      }
    }
  }

  lemma {:induction false} RunKeepsInv(p: Setup, w: World, actions: seq<Action>)
    requires Initial(w)
    ensures Inv(p, Run(p, w, actions))
    ensures |Run(p, w, actions).validations| == |w.validations|
  {
    if actions != [] {
      RunKeepsInv(p, w, actions[..|actions| - 1]);
      StepKeepsInv(p, Run(p, w, actions[..|actions| - 1]), actions[|actions| - 1]);
    }
  }

  /**
   At most once. In every interleaving, with any stale times and any sweeps, if
   each success committed less than the margin after its own check, then no two
   validations of one assertion succeed.
   */
  lemma AtMostOnce(p: Setup, w: World, actions: seq<Action>, i: nat, j: nat)
    requires Initial(w) && i < |w.validations| && j < |w.validations|
    ensures var w' := Run(p, w, actions);
      |w'.validations| == |w.validations| &&
      var (x, y) := (w'.validations[i], w'.validations[j]);
      x.phase.Succeeded? && y.phase.Succeeded? && x.assertion == y.assertion && !Late(p, x) && !Late(p, y) ==> i == j
  {
    RunKeepsInv(p, w, actions);
  }

  // ---------- The steps and the method ----------

  /** The passing of time and other validations only. */
  predicate OthersOnly(actions: seq<Action>, v: nat) {
    forall k :: 0 <= k < |actions| ==> actions[k].Tick? || actions[k].v != v
  }

  lemma {:induction false} OthersLeaveIt(p: Setup, w: World, actions: seq<Action>, v: nat)
    requires v < |w.validations| && OthersOnly(actions, v)
    ensures var n := Run(p, w, actions); |n.validations| == |w.validations| && n.validations[v] == w.validations[v]
  {
    if actions != [] {
      OthersLeaveIt(p, w, actions[..|actions| - 1], v);
    }
  }

  /** What one validation's steps lead to, with anything done by others and by time in between. */
  datatype Course = Course(stamping: World, reading: World, committing: World, done: World)

  ghost function Spread(p: Setup, w: World, v: nat, expiry: int,
                        first: seq<Action>, second: seq<Action>, third: seq<Action>): Course {
    var stamping := Run(p, Step(p, w, Check(v)), first);
    var reading := Run(p, Step(p, stamping, Stamp(v, expiry)), second);
    var committing := Run(p, Step(p, reading, ReadClock(v)), third);
    Course(stamping, reading, committing, Step(p, committing, Commit(v)))
  }

  /** The outcome is the method's on the cache found at the commit, at the time read earlier. */
  ghost predicate SettlesAt(p: Setup, cfg: Config, a: Accepted, before: World, after: World, v: nat, expiry: int, now: int)
    requires v < |after.validations|
  {
    forall r, items :: Settles(cfg, a, before.items, items, p.capacity, expiry, now, r) ==>
      after.items == items && (after.validations[v].phase.Succeeded? <==> r.Ok?)
  }

  /** A commit is the method's own step, at the stamped time, whatever the clock has become. */
  lemma CommitSettles(p: Setup, cfg: Config, w: World, v: nat)
    requires v < |w.validations| && w.validations[v].phase.Timed? && cfg.strictAttributes == p.strict
    requires Presentable(p, w.validations[v].assertion)
    ensures var (a, phase) := (w.validations[v].assertion, w.validations[v].phase);
      SettlesAt(p, cfg, a, w, Step(p, w, Commit(v)), v, phase.expiry, phase.now)
  {
    var n := Step(p, w, Commit(v));
    assert n.validations[v].phase.Succeeded? || n.validations[v].phase.Failed?;
  }

  /** An assertion refused before the cache goes no further and leaves the cache alone, as in the method. */
  lemma RefusedSettles(p: Setup, cfg: Config, w: World, v: nat, expiry: int, now: int)
    requires v < |w.validations| && w.validations[v].phase.Failed? && cfg.strictAttributes == p.strict
    requires !Presentable(p, w.validations[v].assertion)
    ensures SettlesAt(p, cfg, w.validations[v].assertion, w, Step(p, w, Commit(v)), v, expiry, now)
  {
  }

  /**
   One validation, spread over the run in any way, is the method: the expiry is computed at the clock
   of its own stamping, the time handed to the cache is the clock of its own reading, and the
   cache is the one found at the commit.
   */
  lemma SpreadIsValidate(p: Setup, cfg: Config, w: World, v: nat, expiry: int,
                         first: seq<Action>, second: seq<Action>, third: seq<Action>)
    requires v < |w.validations| && w.validations[v].phase.Waiting? && cfg.strictAttributes == p.strict
    requires AcceptsAt(w.validations[v].assertion, p.skew, w.clock)
    requires OthersOnly(first, v) && OthersOnly(second, v) && OthersOnly(third, v)
    requires var c := Spread(p, w, v, expiry, first, second, third);
      IsExpiry(w.validations[v].assertion, c.stamping.clock, p.skew, p.margin, expiry)
    ensures var c := Spread(p, w, v, expiry, first, second, third);
      && v < |c.done.validations|
      && SettlesAt(p, cfg, w.validations[v].assertion, c.committing, c.done, v, expiry, c.reading.clock)
  {
    var a := w.validations[v].assertion;
    var c := Spread(p, w, v, expiry, first, second, third);
    OthersLeaveIt(p, Step(p, w, Check(v)), first, v);
    OthersLeaveIt(p, Step(p, c.stamping, Stamp(v, expiry)), second, v);
    OthersLeaveIt(p, Step(p, c.reading, ReadClock(v)), third, v);
    if Presentable(p, a) {
      assert c.committing.validations[v] == Validation(a, Timed(w.clock, expiry, c.reading.clock));
      CommitSettles(p, cfg, c.committing, v);
    } else {
      RefusedSettles(p, cfg, c.committing, v, expiry, c.reading.clock);
    }
  }

  lemma TimePasses(p: Setup, w: World, d: nat)
    ensures Run(p, w, [Tick(d)]) == w.(clock := w.clock + d)
  {
    assert [Tick(d)][..0] == [];
  }

  lemma AloneCourse(p: Setup, w: World, v: nat, expiry: int, d1: nat, d2: nat, d3: nat)
    ensures var c := Spread(p, w, v, expiry, [Tick(d1)], [Tick(d2)], [Tick(d3)]);
      && c.stamping.clock == w.clock + d1 && c.reading.clock == w.clock + d1 + d2
      && c.committing.clock == w.clock + d1 + d2 + d3 && c.committing.items == w.items
  {
    var c := Spread(p, w, v, expiry, [Tick(d1)], [Tick(d2)], [Tick(d3)]);
    TimePasses(p, Step(p, w, Check(v)), d1);
    TimePasses(p, Step(p, c.stamping, Stamp(v, expiry)), d2);
    TimePasses(p, Step(p, c.reading, ReadClock(v)), d3);
  }

  /** In particular alone, with time passing as it likes. */
  lemma AloneIsValidate(p: Setup, cfg: Config, w: World, v: nat, expiry: int, d1: nat, d2: nat, d3: nat)
    requires v < |w.validations| && w.validations[v].phase.Waiting? && cfg.strictAttributes == p.strict
    requires AcceptsAt(w.validations[v].assertion, p.skew, w.clock)
    requires IsExpiry(w.validations[v].assertion, w.clock + d1, p.skew, p.margin, expiry)
    ensures var c := Spread(p, w, v, expiry, [Tick(d1)], [Tick(d2)], [Tick(d3)]);
      && v < |c.done.validations|
      && c.committing.items == w.items && c.committing.clock == w.clock + d1 + d2 + d3
      && SettlesAt(p, cfg, w.validations[v].assertion, c.committing, c.done, v, expiry, w.clock + d1 + d2)
  {
    AloneCourse(p, w, v, expiry, d1, d2, d3);
    SpreadIsValidate(p, cfg, w, v, expiry, [Tick(d1)], [Tick(d2)], [Tick(d3)]);
  }

  // ---------- A stale commit is refused ----------

  /** Some run from the beginning ends in this world. */
  ghost predicate Reachable(p: Setup, w: World) {
    exists start, actions :: Initial(start) && Run(p, start, actions) == w
  }

  lemma StepsReach(p: Setup, w: World, a: Action)
    requires Reachable(p, w)
    ensures Reachable(p, Step(p, w, a))
  {
    var start, actions :| Initial(start) && Run(p, start, actions) == w;
    assert (actions + [a])[..|actions|] == actions;
    assert Run(p, start, actions + [a]) == Step(p, w, a);
  }

  /** A presentable, acceptable assertion can be checked, stamped and timed at once. */
  lemma TimedAtOnce(p: Setup, w: World, v: nat, expiry: int)
    requires Reachable(p, w) && v < |w.validations| && w.validations[v].phase.Waiting?
    requires var a := w.validations[v].assertion;
      AcceptsAt(a, p.skew, w.clock) && Presentable(p, a) && IsExpiry(a, w.clock, p.skew, p.margin, expiry)
    ensures Reachable(p, Moved(w, v, Timed(w.clock, expiry, w.clock)))
  {
    StepsReach(p, w, Check(v));
    var w1 := Step(p, w, Check(v));
    StepsReach(p, w1, Stamp(v, expiry));
    var w2 := Step(p, w1, Stamp(v, expiry));
    StepsReach(p, w2, ReadClock(v));
    assert Step(p, w2, ReadClock(v)) == Moved(w, v, Timed(w.clock, expiry, w.clock));
  }

  function Other(): Accepted {
    Example().(id := "b")
  }

  /** Every record has expired by the clock, but the time read earlier has reached none of them. */
  ghost predicate StaleAndFull(p: Setup, w: World, v: nat) {
    && v < |w.validations| && w.validations[v].phase.Timed? && |w.items| == p.capacity
    && forall id :: id in w.items ==> w.validations[v].phase.now < w.items[id] <= w.clock
  }

  /**
   So the time read before the lock matters: a run reaches a commit that is refused as full although by
   the clock every record has expired, and a commit at the clock would be admitted.
   */
  lemma StaleCommitIsRefused(p: Setup)
    requires p.capacity == 1 && p.skew >= 0 && p.margin > 0
    ensures exists w :: Reachable(p, w) && StaleAndFull(p, w, 1)
              && Step(p, w, Commit(1)).validations[1].phase.Failed? && Step(p, w, Commit(1)).items == w.items
              && Decide(w.items, p.capacity, w.validations[1].assertion.id, w.validations[1].phase.expiry, w.clock).0 == Admitted
  {
    var e := 5 * MINUTE + p.skew + p.margin;
    assert Bound(Example(), 5 * MINUTE) && Bound(Other(), 5 * MINUTE);
    assert forall t :: Bound(Other(), t) <==> t == 5 * MINUTE;
    var start := World(0, map[], [Validation(Example(), Waiting), Validation(Other(), Waiting)]);
    assert Initial(start) && Run(p, start, []) == start;
    TimedAtOnce(p, start, 0, e);
    var w1 := Moved(start, 0, Timed(0, e, 0));
    StepsReach(p, w1, Commit(0));
    var w2 := Step(p, w1, Commit(0));
    assert w2.items == map["a" := e];
    TimedAtOnce(p, w2, 1, e);
    var w3 := Moved(w2, 1, Timed(0, e, 0));
    StepsReach(p, w3, Tick(e));
    StaleCommit(p, Step(p, w3, Tick(e)), e);
  }

  lemma StaleCommit(p: Setup, w: World, e: int)
    requires p.capacity == 1 && e > 0 && w.clock == e && w.items == map["a" := e]
    requires |w.validations| == 2 && w.validations[1] == Validation(Other(), Timed(0, e, 0))
    ensures StaleAndFull(p, w, 1)
    ensures Step(p, w, Commit(1)).validations[1].phase.Failed? && Step(p, w, Commit(1)).items == w.items
    ensures Decide(w.items, p.capacity, "b", e, w.clock).0 == Admitted
  {
    assert Live(w.items, 0) == w.items;
    assert Live(w.items, e) == map[];
  }

  // ---------- The margin is tight ----------

  function Example(): Accepted {
    Accepted("a", 0, "", None, Some(Conditions(0, 5 * MINUTE)), [], [])
  }

  function ExampleWorld(clock: int, items: Records, first: Phase, second: Phase): World {
    World(clock, items, [Validation(Example(), first), Validation(Example(), second)])
  }

  /** The first validation of the example, run without interruption. */
  lemma FirstSucceeds(p: Setup)
    requires p.capacity >= 1 && p.skew >= 0 && p.margin > 0
    ensures var e := 5 * MINUTE + p.skew + p.margin;
      Run(p, ExampleWorld(0, map[], Waiting, Waiting), [Check(0), Stamp(0, e), ReadClock(0), Commit(0)])
      == ExampleWorld(0, map["a" := e], Succeeded(0, e, 0), Waiting)
  {
    var e := 5 * MINUTE + p.skew + p.margin;
    assert Bound(Example(), 5 * MINUTE);
    var w0 := ExampleWorld(0, map[], Waiting, Waiting);
    var w1 := ExampleWorld(0, map[], Checked(0), Waiting);
    var w2 := ExampleWorld(0, map[], Stamped(0, e), Waiting);
    var w3 := ExampleWorld(0, map[], Timed(0, e, 0), Waiting);
    assert Step(p, w0, Check(0)) == w1;
    assert Step(p, w1, Stamp(0, e)) == w2;
    assert Step(p, w2, ReadClock(0)) == w3;
    assert Step(p, w3, Commit(0)) == ExampleWorld(0, map["a" := e], Succeeded(0, e, 0), Waiting);
    FourSteps(p, w0, Check(0), Stamp(0, e), ReadClock(0), Commit(0));
  }

  lemma FourSteps(p: Setup, w: World, a: Action, b: Action, c: Action, d: Action)
    ensures Run(p, w, [a, b, c, d]) == Step(p, Step(p, Step(p, Step(p, w, a), b), c), d)
  {
    assert [a][..0] == [] && Run(p, w, [a]) == Step(p, w, a);
    assert [a, b][..1] == [a] && Run(p, w, [a, b]) == Step(p, Step(p, w, a), b);
    assert [a, b, c][..2] == [a, b];
    assert [a, b, c, d][..3] == [a, b, c];
  }

  lemma {:induction false} RunConcat(p: Setup, w: World, a: seq<Action>, b: seq<Action>)
    ensures Run(p, w, a + b) == Run(p, Run(p, w, a), b)
  {
    if b == [] {
      assert a + b == a;
    } else {
      assert (a + b)[..|a + b| - 1] == a + b[..|b| - 1];
      RunConcat(p, w, a, b[..|b| - 1]);
    }
  }

  /** A second validation of the example, checked at the last acceptable moment, then delayed by one margin. */
  lemma SecondWaits(p: Setup, e: int, last: int, e': int)
    requires p.skew >= 0 && p.margin > 0
    requires last == 5 * MINUTE + p.skew && e == last + p.margin && e' == e + 5 * MINUTE + p.skew + p.margin
    ensures var done := Succeeded(0, e, 0);
      Run(p, ExampleWorld(0, map["a" := e], done, Waiting), [Tick(last), Check(1), Tick(p.margin), Stamp(1, e')])
      == ExampleWorld(e, map["a" := e], done, Stamped(last, e'))
  {
    var items, done := map["a" := e], Succeeded(0, e, 0);
    var w1 := ExampleWorld(0, items, done, Waiting);
    assert Bound(Example(), 5 * MINUTE) && AcceptsAt(Example(), p.skew, last);
    assert Step(p, w1, Tick(last)) == ExampleWorld(last, items, done, Waiting);
    assert Step(p, ExampleWorld(last, items, done, Waiting), Check(1)) == ExampleWorld(last, items, done, Checked(last));
    assert Step(p, ExampleWorld(last, items, done, Checked(last)), Tick(p.margin)) == ExampleWorld(e, items, done, Checked(last));
    assert Step(p, ExampleWorld(e, items, done, Checked(last)), Stamp(1, e')) == ExampleWorld(e, items, done, Stamped(last, e'));
    FourSteps(p, w1, Tick(last), Check(1), Tick(p.margin), Stamp(1, e'));
  }

  lemma SecondCommits(p: Setup, e: int, last: int, e': int)
    requires p.capacity >= 1
    ensures var w := Run(p, ExampleWorld(e, map["a" := e], Succeeded(0, e, 0), Stamped(last, e')),
                         [ReadClock(1), Tick(0), Tick(0), Commit(1)]);
      w.validations == [Validation(Example(), Succeeded(0, e, 0)), Validation(Example(), Succeeded(last, e', e))]
  {
    var items, done := map["a" := e], Succeeded(0, e, 0);
    var w := ExampleWorld(e, items, done, Stamped(last, e'));
    var timed := ExampleWorld(e, items, done, Timed(last, e', e));
    assert Step(p, w, ReadClock(1)) == timed;
    assert Step(p, timed, Tick(0)) == timed;
    FourSteps(p, w, ReadClock(1), Tick(0), Tick(0), Commit(1));
  }

  /** Two successes for one assertion, the second committed exactly one margin after its check. */
  ghost predicate TwiceWithOneMarginDelay(p: Setup, w: World) {
    && |w.validations| == 2 && w.validations[0].assertion == w.validations[1].assertion
    && w.validations[0].phase.Succeeded? && w.validations[1].phase.Succeeded?
    && w.validations[1].phase.committed - w.validations[1].phase.checked == p.margin
  }

  lemma ThreeParts(p: Setup, w0: World, w1: World, w2: World, a: seq<Action>, b: seq<Action>, c: seq<Action>)
    requires Initial(w0) && Run(p, w0, a) == w1 && Run(p, w1, b) == w2 && TwiceWithOneMarginDelay(p, Run(p, w2, c))
    ensures exists w, actions :: Initial(w) && TwiceWithOneMarginDelay(p, Run(p, w, actions))
  {
    RunConcat(p, w0, a, b);
    RunConcat(p, w0, a + b, c);
  }

  /** So the bound of the theorem cannot be relaxed, for any skew and any margin. */
  lemma ExactlyOneMarginLateReplays(p: Setup)
    requires p.capacity >= 1 && p.skew >= 0 && p.margin > 0
    ensures exists w, actions :: Initial(w) && TwiceWithOneMarginDelay(p, Run(p, w, actions))
  {
    var last := 5 * MINUTE + p.skew;
    var e := last + p.margin;
    var e' := e + 5 * MINUTE + p.skew + p.margin;
    var w0 := ExampleWorld(0, map[], Waiting, Waiting);
    FirstSucceeds(p);
    SecondWaits(p, e, last, e');
    SecondCommits(p, e, last, e');
    ThreeParts(p, w0,
               ExampleWorld(0, map["a" := e], Succeeded(0, e, 0), Waiting),
               ExampleWorld(e, map["a" := e], Succeeded(0, e, 0), Stamped(last, e')),
               [Check(0), Stamp(0, e), ReadClock(0), Commit(0)],
               [Tick(last), Check(1), Tick(p.margin), Stamp(1, e')],
               [ReadClock(1), Tick(0), Tick(0), Commit(1)]);
  }

}
