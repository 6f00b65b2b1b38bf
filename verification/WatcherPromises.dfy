/**
 The three places where the comments of geoip/watcher.go promise more than its code
 does, each with the exact condition under which the code keeps the promise: the
 switch (51-57), a path whose file has an equal stamp, and a path set during a refresh (70-80).
 */
module WatcherPromises {
  import opened Common
  import opened Watcher
  import opened WatcherFreshness

  /** Disabled after a load, a lookup still reads whatever is loaded. */
  lemma DisabledServesWhatIsLoaded(w: World, t: nat)
    requires Unlocked(w) && t < |w.threads| && w.threads[t].Idle?
    ensures var n := Alone(Step(Step(w, SetEnabled(false)), StartLookup(t)), t, 2);
      t < |n.threads| && n.threads[t] == Reading(w.fields.reader) && n.handles == w.handles && n.closed == w.closed
  {
    var w0 := Step(Step(w, SetEnabled(false)), StartLookup(t));
    AloneUnfolds(w0, t, 2);
    AloneUnfolds(Advance(w0, t), t, 1);
  }

  ghost predicate SwitchStaysOff(actions: seq<Action>) {
    forall k :: 0 <= k < |actions| ==> actions[k] != SetEnabled(true)
  }

  predicate NobodyReads(w: World) {
    forall t :: 0 <= t < |w.threads| && w.threads[t].Reading? ==> w.threads[t].handle.None?
  }

  ghost predicate NeverServes(w: World) {
    forall actions: seq<Action> :: SwitchStaysOff(actions) ==> NobodyReads(Run(w, actions))
  }

  ghost predicate NeverOpens(w: World) {
    forall actions: seq<Action> :: SwitchStaysOff(actions) ==> Run(w, actions).handles == w.handles
  }

  /** A refresh past its check of the switch that can still open the file; one whose stat found no file cannot. */
  predicate MayOpen(p: Thread) {
    p.Statting? || ((p.Comparing? || p.Waiting? || p.Holding?) && p.job.file.Some?)
  }

  /** The switch is off and no refresh is left that can open. */
  ghost predicate Sealed(w: World) {
    !w.fields.enabled && forall t :: 0 <= t < |w.threads| ==> !MayOpen(w.threads[t])
  }

  /** And nothing is loaded, nor about to be. */
  ghost predicate Dark(w: World) {
    && Sealed(w) && w.fields.reader.None? && NobodyReads(w)
    && forall t :: 0 <= t < |w.threads| ==> (w.threads[t].Opened? || w.threads[t].Swapping? ==> w.threads[t].result.Err?)
  }

  lemma SealedMover(w: World, t: nat)
    requires !w.fields.enabled && t < |w.threads| && !MayOpen(w.threads[t])
    ensures !MayOpen(Advance(w, t).threads[t]) && Advance(w, t).handles == w.handles
    ensures Advance(w, t).fields.enabled == w.fields.enabled
  {
  }

  lemma SealedStep(w: World, a: Action, t: nat)
    requires !w.fields.enabled && t < |w.threads| && !MayOpen(w.threads[t])
    ensures |Step(w, a).threads| == |w.threads| && !MayOpen(Step(w, a).threads[t])
  {
    if a == Go(t) {
      SealedMover(w, t);
    } else {
      OthersStay(w, a, t);
    }
  }

  lemma SealedKept(w: World, a: Action)
    requires Sealed(w) && a != SetEnabled(true)
    ensures Sealed(Step(w, a)) && Step(w, a).handles == w.handles
  {
    if a.Go? && a.t < |w.threads| {
      SealedMover(w, a.t);
    }
    forall t | 0 <= t < |Step(w, a).threads| ensures !MayOpen(Step(w, a).threads[t]) {
      SealedStep(w, a, t);
    }
  }

  lemma DarkKept(w: World, a: Action)
    requires Dark(w) && a != SetEnabled(true)
    ensures Dark(Step(w, a))
  {
    var n := Step(w, a);
    SealedKept(w, a);
    if a.Go? && a.t < |w.threads| {
      assert !MayOpen(w.threads[a.t]);
    }
    forall t | 0 <= t < |n.threads|
      ensures (n.threads[t].Opened? || n.threads[t].Swapping? ==> n.threads[t].result.Err?)
           && (n.threads[t].Reading? ==> n.threads[t].handle.None?)
    {
      if a != Go(t) {
        OthersStay(w, a, if t < |w.threads| then t else 0);
      }
    }
  }

  lemma {:induction false} SealedForever(w: World, actions: seq<Action>)
    requires Sealed(w) && SwitchStaysOff(actions)
    ensures Run(w, actions).handles == w.handles
    decreases |actions|
  {
    if actions != [] {
      SealedKept(w, actions[0]);
      SealedForever(Step(w, actions[0]), actions[1..]);
    }
  }

  lemma {:induction false} DarkForever(w: World, actions: seq<Action>)
    requires Dark(w) && SwitchStaysOff(actions)
    ensures NobodyReads(Run(w, actions))
    decreases |actions|
  {
    if actions != [] {
      DarkKept(w, actions[0]);
      DarkForever(Step(w, actions[0]), actions[1..]);
    }
  }

  lemma {:induction false} RunMore(w: World, actions: seq<Action>, more: seq<Action>)
    ensures Run(w, actions + more) == Run(Run(w, actions), more)
    decreases |actions|
  {
    if actions == [] {
      assert actions + more == more;
    } else {
      assert (actions + more)[1..] == actions[1..] + more;
      RunMore(Step(w, actions[0]), actions[1..], more);
    }
  }

  lemma {:induction false} GoesLeaveSwitch(t: nat, n: nat)
    ensures SwitchStaysOff(Goes(t, n))
  {
    if n > 0 {
      GoesLeaveSwitch(t, n - 1);
    }
  }

  /** Some schedule that leaves the switch off leads from `w` to `n`. */
  ghost predicate LeadsTo(w: World, n: World) {
    exists actions :: SwitchStaysOff(actions) && Run(w, actions) == n
  }

  lemma LeadsOn(w: World, n: World, m: World)
    requires LeadsTo(w, n) && LeadsTo(n, m)
    ensures LeadsTo(w, m)
  {
    var first :| SwitchStaysOff(first) && Run(w, first) == n;
    var second :| SwitchStaysOff(second) && Run(n, second) == m;
    RunMore(w, first, second);
    assert SwitchStaysOff(first + second);
  }

  lemma StepLeads(w: World, a: Action)
    requires a != SetEnabled(true)
    ensures LeadsTo(w, Step(w, a))
  {
    assert [a][1..] == [];
    assert Run(w, [a]) == Step(w, a) && SwitchStaysOff([a]);
  }

  /** Nothing else moved but thread `t`, and the lock is free. */
  predicate OnlyMoved(w: World, n: World, t: nat) {
    && Unlocked(n) && |n.threads| == |w.threads| && n.fields.enabled == w.fields.enabled
    && forall u :: 0 <= u < |w.threads| && u != t ==> n.threads[u] == w.threads[u]
  }

  lemma AloneLeads(w: World, t: nat, n: nat)
    ensures LeadsTo(w, Alone(w, t, n))
  {
    GoesLeaveSwitch(t, n);
  }

  /** A reload that has opened a handle installs it. */
  lemma OpenedLoads(w: World, t: nat, job: Job, h: nat)
    requires t < |w.threads| && w.threads[t] == Opened(job, Ok(h)) && w.readers == {}
    ensures var n := Alone(w, t, 2); OnlyMoved(w, n, t) && n.fields.reader == Some(h) && n.handles == w.handles
  {
    AloneUnfolds(w, t, 2);
    AloneUnfolds(Advance(w, t), t, 1);
  }

  /** A refresh that waits for the lock, with nothing loaded and a readable file in place, loads it. */
  lemma WaitingLoads(w: World, t: nat, job: Job)
    requires t < |w.threads| && w.threads[t] == Waiting(job) && Unlocked(w) && w.fields.reader.None?
    requires job.file.Some? && job.path in w.disk.files && w.disk.files[job.path].readable
    ensures var n := Alone(w, t, 4); OnlyMoved(w, n, t) && n.fields.reader.Some? && |n.handles| > |w.handles|
  {
    var w1 := Advance(w, t);
    var w2 := Reopen(w1, t, job);
    AloneUnfolds(w, t, 4);
    AloneUnfolds(w1, t, 3);
    OpenedLoads(w2, t, job, |w.handles|);
  }

  lemma ComparingLoads(w: World, t: nat, job: Job)
    requires t < |w.threads| && w.threads[t] == Comparing(job) && Unlocked(w) && w.fields.reader.None?
    requires job.file.Some? && job.path in w.disk.files && w.disk.files[job.path].readable
    ensures var n := Alone(w, t, 5); OnlyMoved(w, n, t) && n.fields.reader.Some? && |n.handles| > |w.handles|
  {
    AloneUnfolds(w, t, 5);
    WaitingLoads(Advance(w, t), t, job);
  }

  lemma StattingLoads(w: World, t: nat, path: string)
    requires t < |w.threads| && w.threads[t].Statting? && w.threads[t].path == path && Unlocked(w) && w.fields.reader.None?
    requires path in w.disk.files && w.disk.files[path].readable
    ensures var n := Alone(w, t, 6); OnlyMoved(w, n, t) && n.fields.reader.Some? && |n.handles| > |w.handles|
  {
    AloneUnfolds(w, t, 6);
    ComparingLoads(Advance(w, t), t, Advance(w, t).threads[t].job);
  }

  /** Whatever the refresh has seen, putting a readable file in place lets it load. */
  lemma MayOpenLoads(w: World, t: nat) returns (n: World)
    requires t < |w.threads| && MayOpen(w.threads[t]) && !HasLock(w.threads[t]) && Unlocked(w) && w.fields.reader.None?
    ensures LeadsTo(w, n) && OnlyMoved(w, n, t) && n.fields.reader.Some? && |n.handles| > |w.handles|
  {
    var path := if w.threads[t].Statting? then w.threads[t].path else w.threads[t].job.path;
    var w1 := w.(disk := Replaced(w.disk, path, true, ZERO_STAMP));
    StepLeads(w, Replace(path, true, ZERO_STAMP));
    var k: nat;
    if w.threads[t].Statting? {
      k := 6;
      StattingLoads(w1, t, path);
    } else if w.threads[t].Comparing? {
      k := 5;
      ComparingLoads(w1, t, w.threads[t].job);
    } else {
      k := 4;
      WaitingLoads(w1, t, w.threads[t].job);
    }
    n := Alone(w1, t, k);
    AloneLeads(w1, t, k);
    LeadsOn(w, w1, n);
  }

  /** An idle thread can always look up what is loaded, switch off or not. */
  lemma LookupReads(w: World, u: nat) returns (n: World)
    requires Unlocked(w) && !w.fields.enabled && u < |w.threads| && w.threads[u].Idle?
    ensures LeadsTo(w, n) && u < |n.threads| && n.threads[u] == Reading(w.fields.reader) && n.handles == w.handles
  {
    var w1 := Step(w, StartLookup(u));
    var w2 := Step(w1, Go(u));
    n := Step(w2, Go(u));
    StepLeads(w, StartLookup(u));
    StepLeads(w1, Go(u));
    StepLeads(w2, Go(u));
    LeadsOn(w, w1, w2);
    LeadsOn(w, w2, n);
  }

  lemma CloseEmpties(w: World, u: nat) returns (n: World)
    requires Unlocked(w) && u < |w.threads| && w.threads[u].Idle?
    ensures LeadsTo(w, n) && OnlyMoved(w, n, u) && n.threads[u].Idle? && n.fields.reader.None? && n.handles == w.handles
  {
    if w.fields.reader.Some? {
      StepLeads(w, StartClose(u));
      StepLeads(Step(w, StartClose(u)), Go(u));
      n := Step(Step(w, StartClose(u)), Go(u));
      LeadsOn(w, Step(w, StartClose(u)), n);
    } else {
      n := w;
      assert Run(w, []) == w && SwitchStaysOff([]);
    }
  }

  /** What a refresh in flight at the switch can do: open the file, and a lookup begun afterwards reads it. */
  lemma InFlightOpensAndServes(w: World, t: nat, u: nat) returns (n: World)
    requires Unlocked(w) && !w.fields.enabled && t < |w.threads| && MayOpen(w.threads[t]) && !HasLock(w.threads[t])
    requires u < |w.threads| && w.threads[u].Idle?
    ensures LeadsTo(w, n) && |n.handles| > |w.handles| && !NobodyReads(n)
  {
    var w1 := CloseEmpties(w, u);
    var w2 := MayOpenLoads(w1, t);
    LeadsOn(w, w1, w2);
    n := LookupReads(w2, u);
    LeadsOn(w, w2, n);
  }

  /**
   What switching off guarantees, exactly, over every schedule that leaves it off: the file is never
   opened again if and only if no refresh under way can still open it; and no lookup reads a
   database if and only if besides that nothing is loaded.
   */
  lemma DisabledExactlyWhen(w: World, u: nat)
    requires LocksOk(w) && Unlocked(w) && u < |w.threads| && w.threads[u].Idle?
    ensures var off := Step(w, SetEnabled(false));
      var quiet := forall t :: 0 <= t < |w.threads| ==> !MayOpen(w.threads[t]);
      (NeverOpens(off) <==> quiet) && (NeverServes(off) <==> quiet && w.fields.reader.None?)
  {
    var off := Step(w, SetEnabled(false));
    if t :| 0 <= t < |w.threads| && MayOpen(w.threads[t]) {
      assert LockAt(w, t);
      var n := InFlightOpensAndServes(off, t, u);
      var actions :| SwitchStaysOff(actions) && Run(off, actions) == n;
    } else {
      forall actions: seq<Action> | SwitchStaysOff(actions) ensures Run(off, actions).handles == off.handles {
        SealedForever(off, actions);
      }
      if w.fields.reader.Some? {
        var n := LookupReads(off, u);
        var actions :| SwitchStaysOff(actions) && Run(off, actions) == n;
      } else {
        forall t | 0 <= t < |w.threads| ensures !HasLock(w.threads[t]) && !w.threads[t].Reading? {
          assert LockAt(w, t);
        }
        forall actions: seq<Action> | SwitchStaysOff(actions) ensures NobodyReads(Run(off, actions)) {
          DarkForever(off, actions);
        }
      }
    }
  }

  /** After `SetPath`, the next refresh keeps the old reader exactly when the new file's stamp is the recorded one. */
  lemma OldReaderKeptExactlyOnEqualStamp(w: World, q: string, t: nat)
    requires Safe(w) && Unlocked(w) && t < |w.threads| && w.threads[t].Idle?
    requires w.fields.enabled && q != "" && q in w.disk.files && w.fields.reader.Some?
    ensures var n := Alone(Step(Step(w, SetPath(q)), StartRefresh(t)), t, 7);
      n.fields.reader == w.fields.reader <==> w.disk.files[q].stamp == w.fields.stamp
  {
    AloneIsRefresh(Step(w, SetPath(q)), t);
    LiveIsOpen(w, w.fields.reader.value);
  }

  lemma {:induction false} AloneKeepsDisk(w: World, t: nat, n: nat)
    requires t < |w.threads|
    ensures Alone(w, t, n).disk == w.disk
    decreases n
  {
    if n > 0 {
      AloneUnfolds(w, t, n);
      AloneKeepsDisk(Advance(w, t), t, n - 1);
    }
  }

  /** A reader is loaded from one path, and another path holds a file with the very stamp recorded. */
  predicate EqualStamps(w: World, q: string) {
    && Unlocked(w) && w.threads == [Idle] && w.fields.enabled && w.fields.reader.Some?
    && q != "" && q != w.fields.path && q in w.disk.files && w.disk.files[q].stamp == w.fields.stamp
  }

  lemma LoadsBesideTwin(w: World, q: string)
    requires Unlocked(w) && w.threads == [Idle] && w.fields.enabled && w.fields.reader.None?
    requires w.fields.path in w.disk.files && w.disk.files[w.fields.path].readable && w.fields.path != ""
    requires q in w.disk.files && q != "" && q != w.fields.path
    requires w.disk.files[q].stamp == w.disk.files[w.fields.path].stamp
    ensures EqualStamps(Alone(Step(w, StartRefresh(0)), 0, 7), q)
  {
    AloneIsRefresh(w, 0);
    AloneKeepsDisk(Step(w, StartRefresh(0)), 0, 7);
  }

  lemma TwoFilesLoadOne(start: World, p: string, q: string, stamp: Stamp)
    requires Initial(start) && start.threads == [Idle] && start.fields.enabled && start.fields.path == p
    requires p != "" && q != "" && p != q
    ensures exists w :: LeadsTo(start, w) && EqualStamps(w, q)
  {
    var w1 := Step(start, Replace(p, true, stamp));
    var w2 := Step(w1, Replace(q, true, stamp));
    var w3 := Step(w2, StartRefresh(0));
    var w := Alone(w3, 0, 7);
    StepLeads(start, Replace(p, true, stamp));
    StepLeads(w1, Replace(q, true, stamp));
    StepLeads(w2, StartRefresh(0));
    AloneLeads(w3, 0, 7);
    LeadsOn(start, w1, w2);
    LeadsOn(start, w2, w3);
    LeadsOn(start, w3, w);
    LoadsBesideTwin(w2, q);
  }

  /** So after some history `SetPath` and a refresh leave the reader of the other path in service. */
  lemma EqualStampsHappen()
    ensures exists start, w, q :: Initial(start) && LeadsTo(start, w) && EqualStamps(w, q)
              && Alone(Step(Step(w, SetPath(q)), StartRefresh(0)), 0, 7).fields.reader == w.fields.reader
  {
    var p, q, stamp := "a", "b", Stamp(1, 1);
    var start := World(Fields(true, p, None, ZERO_STAMP, None), Disk(0, {}, map[]), [], [], None, None, {}, [Idle]);
    TwoFilesLoadOne(start, p, q, stamp);
    var w :| LeadsTo(start, w) && EqualStamps(w, q);
    var actions :| SwitchStaysOff(actions) && Run(start, actions) == w;
    InitialIsSafe(start);
    RunsAreSafe(start, actions);
    OldReaderKeptExactlyOnEqualStamp(w, q, 0);
  }

  /** The path a refresh has captured, if it has, is `q`. */
  predicate Captured(p: Thread, q: string) {
    match p
    case Statting(_, path) => path == q
    case Comparing(job) => job.path == q
    case Waiting(job) => job.path == q
    case Holding(job) => job.path == q
    case Opened(job, _) => job.path == q
    case Swapping(job, _) => job.path == q
    case _ => true
  }

  ghost predicate OnPath(w: World, q: string) {
    w.fields.path == q && forall t :: 0 <= t < |w.threads| ==> Captured(w.threads[t], q)
  }

  lemma OnPathKept(w: World, a: Action, q: string)
    requires OnPath(w, q) && !a.SetPath?
    ensures OnPath(Step(w, a), q)
  {
    var n := Step(w, a);
    if a.Go? && a.t < |w.threads| {
      assert Captured(w.threads[a.t], q);
    }
    forall t | 0 <= t < |n.threads| ensures Captured(n.threads[t], q) {
      if a != Go(t) {
        OthersStay(w, a, if t < |w.threads| then t else 0);
      }
    }
  }

  ghost predicate SetsNoPath(actions: seq<Action>) {
    forall k :: 0 <= k < |actions| ==> !actions[k].SetPath?
  }

  lemma {:induction false} GoesSetNoPath(t: nat, n: nat)
    ensures SetsNoPath(Goes(t, n))
  {
    if n > 0 {
      GoesSetNoPath(t, n - 1);
    }
  }

  lemma {:induction false} RunsStayOnPath(w: World, actions: seq<Action>, q: string)
    requires OnPath(w, q) && SetsNoPath(actions)
    ensures Run(w, actions).fields.path == q
    decreases |actions|
  {
    if actions != [] {
      OnPathKept(w, actions[0], q);
      RunsStayOnPath(Step(w, actions[0]), actions[1..], q);
    }
  }

  /** A refresh past its first step writes its captured path back over a later one. */
  lemma CapturedPathComesBack(w: World, t: nat, q: string)
    requires LocksOk(w) && Unlocked(w) && t < |w.threads| && w.fields.path == q && !Captured(w.threads[t], q)
    ensures Alone(w, t, 6).fields.path != q
  {
    assert LockAt(w, t);
    var w1 := Advance(w, t);
    AloneUnfolds(w, t, 6);
    match w.threads[t] {
      case Statting(_, _) => AloneFromComparing(w1, t, w1.threads[t].job, 5);
      case Comparing(job) => AloneFromComparing(w, t, job, 6);
      case Waiting(job) => AloneFromHolding(w1, t, job, 5);
    }
  }

  ghost predicate PathStays(w: World, q: string) {
    forall actions: seq<Action> :: SetsNoPath(actions) ==> Run(w, actions).fields.path == q
  }

  /** A path that is set stays set under every schedule exactly when no refresh under way has captured another. */
  lemma SetPathWinsExactlyWhen(w: World, q: string)
    requires LocksOk(w) && Unlocked(w)
    ensures PathStays(Step(w, SetPath(q)), q) <==> forall t :: 0 <= t < |w.threads| ==> Captured(w.threads[t], q)
  {
    var n := Step(w, SetPath(q));
    LocksKept(w, SetPath(q));
    if t :| 0 <= t < |w.threads| && !Captured(w.threads[t], q) {
      CapturedPathComesBack(n, t, q);
      GoesSetNoPath(t, 6);
      assert Run(n, Goes(t, 6)).fields.path != q;
    } else {
      forall actions: seq<Action> | SetsNoPath(actions) ensures Run(n, actions).fields.path == q {
        RunsStayOnPath(n, actions, q);
      }
    }
  }
}
