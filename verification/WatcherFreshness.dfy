/**
 What a refresh leaves behind (geoip/watcher.go:186-240): the recorded stamp is never
 newer than the opened content, so once a file stops changing one more refresh
 catches up and later ones leave the reader alone. Then what one thread does on its own.
 */
module WatcherFreshness {
  import opened Common
  import opened Watcher

  // ---------- Where a recorded stamp and an open handle come from ----------

  /** The file in place at a path is the newest version made for it, and serials name versions. */
  ghost predicate DiskOk(d: Disk) {
    && (forall p :: p in d.files ==> d.files[p] in d.made && d.files[p].path == p)
    && (forall a :: a in d.made ==> a.serial < d.next)
    && (forall a :: a in d.made && a.path in d.files ==> a.serial <= d.files[a.path].serial)
    && (forall a, b :: a in d.made && b in d.made && a.serial == b.serial ==> a == b)
  }

  /** Handle `h` holds version `v` of its file or a newer one. */
  predicate Covers(w: World, v: Version, h: nat) {
    && v in w.disk.made && h < |w.handles| && w.handles[h] in w.disk.made
    && w.handles[h].path == v.path && v.serial <= w.handles[h].serial
  }

  predicate JobOk(d: Disk, job: Job) {
    job.file.Some? ==> job.file.value in d.made && job.file.value.path == job.path
  }

  /** A reload past its open: it was needed, and its result is no older than what its stat saw. */
  predicate ResultOk(w: World, job: Job, result: Result<nat, OpenError>) {
    && JobOk(w.disk, job)
    && !Matches(w.fields, job.path, job.Seen())
    && (result.Ok? ==> job.file.Some? && Covers(w, job.file.value, result.value))
    && (result.Err? && job.file.Some? && job.file.value.readable ==> FileAt(w.disk, job.path) != job.file)
  }

  predicate ThreadOk(w: World, p: Thread) {
    match p
    case Comparing(job) => JobOk(w.disk, job)
    case Waiting(job) => JobOk(w.disk, job)
    case Holding(job) => JobOk(w.disk, job)
    case Opened(job, result) => ResultOk(w, job, result)
    case Swapping(job, result) => ResultOk(w, job, result)
    case _ => true
  }

  /** The recorded stamp is that of a version no newer than the one the reader holds. */
  predicate RecordOk(w: World) {
    w.fields.reader.Some? ==>
      w.recorded.Some? && Covers(w, w.recorded.value, w.fields.reader.value) && w.fields.stamp == w.recorded.value.stamp
  }

  ghost predicate Traced(w: World) {
    LocksOk(w) && DiskOk(w.disk) && RecordOk(w) && forall t :: 0 <= t < |w.threads| ==> ThreadOk(w, w.threads[t])
  }

  /** What a thread may rely on when the disk moves: a file is put in place once. */
  ghost predicate DiskLater(d: Disk, e: Disk) {
    && d.made <= e.made
    && forall p :: p in e.files ==> FileAt(d, p) == Some(e.files[p]) || e.files[p] !in d.made
  }

  lemma DiskKept(d: Disk, path: string, readable: bool, stamp: Stamp)
    requires DiskOk(d)
    ensures DiskOk(Replaced(d, path, readable, stamp)) && DiskLater(d, Replaced(d, path, readable, stamp))
  {
  }

  lemma StepsOnDisk(w: World, a: Action)
    requires DiskOk(w.disk)
    ensures DiskOk(Step(w, a).disk) && DiskLater(w.disk, Step(w, a).disk)
  {
    if a.Replace? {
      DiskKept(w.disk, a.path, a.readable, a.stamp);
    } else if a.Remove? {
    } else {
      assert Step(w, a).disk == w.disk;
    }
  }

  predicate HandlesLater(w: World, n: World) {
    |w.handles| <= |n.handles| && n.handles[..|w.handles|] == w.handles
  }

  lemma StepsOnHandles(w: World, a: Action)
    ensures HandlesLater(w, Step(w, a))
  {
  }

  lemma CoversLater(w: World, n: World, v: Version, h: nat)
    requires w.disk.made <= n.disk.made && HandlesLater(w, n) && Covers(w, v, h)
    ensures Covers(n, v, h)
  {
    assert n.handles[h] == n.handles[..|w.handles|][h];
  }

  lemma ThreadLater(w: World, n: World, p: Thread)
    requires DiskLater(w.disk, n.disk) && HandlesLater(w, n) && ThreadOk(w, p)
    requires p.Opened? || p.Swapping? ==> n.fields == w.fields
    ensures ThreadOk(n, p)
  {
    if (p.Opened? || p.Swapping?) && p.result.Ok? {
      CoversLater(w, n, p.job.file.value, p.result.value);
    }
  }

  /** Only the thread that holds the lock changes the fields. */
  lemma LockGuardsFields(w: World, a: Action, u: nat)
    requires LocksOk(w) && u < |w.threads| && HasLock(w.threads[u]) && (a.Go? ==> a.t != u)
    ensures Step(w, a).fields == w.fields
  {
    assert LockAt(w, u);
    if a.Go? && a.t < |w.threads| {
      assert LockAt(w, a.t);
    }
  }

  lemma ReopenedIsNoOlder(w: World, t: nat, job: Job)
    requires DiskOk(w.disk) && t < |w.threads| && JobOk(w.disk, job)
    ensures ThreadOk(Reopen(w, t, job), Reopen(w, t, job).threads[t])
  {
    var n := Reopen(w, t, job);
    if n.threads[t].Opened? && n.threads[t].result.Ok? {
      assert n.handles[|w.handles|] == w.disk.files[job.path];
    }
  }

  lemma MoverKept(w: World, t: nat)
    requires DiskOk(w.disk) && t < |w.threads| && ThreadOk(w, w.threads[t])
    ensures ThreadOk(Advance(w, t), Advance(w, t).threads[t])
  {
    if w.threads[t].Holding? {
      ReopenedIsNoOlder(w, t, w.threads[t].job);
    }
  }

  lemma RecordUntouched(w: World, a: Action)
    requires a.Go? && a.t < |w.threads| ==> !w.threads[a.t].Swapping?
    ensures var n := Step(w, a); n.fields.reader.Some? ==>
      n.fields.reader == w.fields.reader && n.recorded == w.recorded && n.fields.stamp == w.fields.stamp
  {
  }

  /** The fields that `RecordOk` reads change only when a reload ends, a path is set or the reader is dropped. */
  lemma RecordKept(w: World, a: Action)
    requires DiskOk(w.disk) && RecordOk(w)
    requires a.Go? && a.t < |w.threads| ==> ThreadOk(w, w.threads[a.t])
    ensures RecordOk(Step(w, a))
  {
    if a.Go? && a.t < |w.threads| && w.threads[a.t].Swapping? {
      assert ResultOk(w, w.threads[a.t].job, w.threads[a.t].result);
    } else {
      StepsOnDisk(w, a);
      StepsOnHandles(w, a);
      RecordUntouched(w, a);
      if w.fields.reader.Some? {
        CoversLater(w, Step(w, a), w.recorded.value, w.fields.reader.value);
      }
    }
  }

  /** Another thread's step, or the disk's, moves nobody else; a thread only begins from idle. */
  lemma OthersStay(w: World, a: Action, u: nat)
    requires u < |w.threads| && (a.Go? ==> a.t != u)
    ensures |Step(w, a).threads| == |w.threads|
    ensures var p := Step(w, a).threads[u]; p == w.threads[u] || (w.threads[u].Idle? && (p.Entered? || p.Closing?))
  {
    if a.Go? && a.t < |w.threads| {
      assert Advance(w, a.t).threads[u] == w.threads[u];
    }
  }

  lemma OthersKept(w: World, a: Action, u: nat)
    requires LocksOk(w) && DiskOk(w.disk) && u < |w.threads| && ThreadOk(w, w.threads[u])
    requires a.Go? ==> a.t != u
    ensures |Step(w, a).threads| == |w.threads| && ThreadOk(Step(w, a), Step(w, a).threads[u])
  {
    if HasLock(w.threads[u]) {
      LockGuardsFields(w, a, u);
    }
    StepsOnDisk(w, a);
    StepsOnHandles(w, a);
    OthersStay(w, a, u);
    ThreadLater(w, Step(w, a), w.threads[u]);
  }

  lemma ThreadsKept(w: World, a: Action, u: nat)
    requires Traced(w) && u < |w.threads|
    ensures |Step(w, a).threads| == |w.threads| && ThreadOk(Step(w, a), Step(w, a).threads[u])
  {
    if a.Go? && a.t == u {
      MoverKept(w, u);
    } else {
      OthersKept(w, a, u);
    }
  }

  lemma TracedKept(w: World, a: Action)
    requires Traced(w)
    ensures Traced(Step(w, a))
  {
    LocksKept(w, a);
    StepsOnDisk(w, a);
    RecordKept(w, a);
    forall u | 0 <= u < |Step(w, a).threads| ensures ThreadOk(Step(w, a), Step(w, a).threads[u]) {
      ThreadsKept(w, a, if u < |w.threads| then u else 0);
    }
  }

  lemma {:induction false} RunsAreTraced(w: World, actions: seq<Action>)
    requires Traced(w)
    ensures Traced(Run(w, actions))
    decreases |actions|
  {
    if actions != [] {
      TracedKept(w, actions[0]);
      RunsAreTraced(Step(w, actions[0]), actions[1..]);
    }
  }

  lemma InitialIsTraced(w: World)
    requires Initial(w)
    ensures Traced(w)
  {
    forall t | 0 <= t < |w.threads| ensures LockAt(w, t) && ThreadOk(w, w.threads[t]) {
      assert w.threads[t] == Idle;
    }
  }

  // ---------- The file has stopped changing ----------

  /** Modification time and size tell every two versions apart, across paths too. */
  ghost predicate StampsTellApart(d: Disk) {
    forall a, b :: a in d.made && b in d.made && a.stamp == b.stamp ==> a == b
  }

  /** A refresh under way works on path `p` and, past its stat, on version `v`. */
  predicate Fresh(th: Thread, p: string, v: Version) {
    match th
    case Statting(_, path) => path == p
    case Comparing(job) => job.path == p && job.file == Some(v)
    case Waiting(job) => job.path == p && job.file == Some(v)
    case Holding(job) => job.path == p && job.file == Some(v)
    case Opened(job, _) => job.path == p && job.file == Some(v)
    case Swapping(job, _) => job.path == p && job.file == Some(v)
    case _ => true
  }

  /** Path `p` is watched, readable version `v` is in place there, and no refresh with an older stat is left. */
  ghost predicate Settled(w: World, p: string, v: Version) {
    && w.fields.enabled && w.fields.path == p && p != ""
    && FileAt(w.disk, p) == Some(v) && v.readable && StampsTellApart(w.disk)
    && forall t :: 0 <= t < |w.threads| ==> Fresh(w.threads[t], p, v)
  }

  /** Lookups and refreshes only: the file, the path, the switch and `Close` are left alone. */
  predicate Quiet(a: Action) {
    a.StartLookup? || a.StartRefresh? || a.Go?
  }

  predicate InRefresh(p: Thread) {
    p.Entered? || p.Statting? || p.Comparing? || p.Waiting? || p.Holding? || p.Opened? || p.Swapping?
  }

  /** The recorded stamp is the file's and nobody is about to drop the reader. */
  ghost predicate Current(w: World, p: string, v: Version) {
    Matches(w.fields, p, v.stamp) && forall t :: 0 <= t < |w.threads| ==> !w.threads[t].Closing?
  }

  lemma NoCloseWithoutLock(w: World, t: nat)
    requires LocksOk(w) && t < |w.threads| && (w.writer.None? || w.writer == Some(t)) && !w.threads[t].Closing?
    ensures forall u :: 0 <= u < |w.threads| ==> !w.threads[u].Closing?
  {
    forall u | 0 <= u < |w.threads| ensures !w.threads[u].Closing? {
      assert LockAt(w, u);
    }
  }

  /** With the file's own stamp recorded, what the reader holds is the file. */
  lemma CurrentMeansUpToDate(w: World, p: string, v: Version)
    requires DiskOk(w.disk) && RecordOk(w) && StampsTellApart(w.disk)
    requires FileAt(w.disk, p) == Some(v) && Matches(w.fields, p, v.stamp)
    ensures w.fields.reader.value < |w.handles| && w.handles[w.fields.reader.value] == v
  {
    assert w.recorded == Some(v);
  }

  lemma StepsStayFresh(w: World, a: Action, p: string, v: Version, t: nat)
    requires Quiet(a) && t < |w.threads| && Fresh(w.threads[t], p, v)
    requires w.fields.path == p && FileAt(w.disk, p) == Some(v)
    ensures |Step(w, a).threads| == |w.threads| && Fresh(Step(w, a).threads[t], p, v)
  {
    if a != Go(t) {
      OthersStay(w, a, t);
    }
  }

  lemma SettledKept(w: World, a: Action, p: string, v: Version)
    requires Settled(w, p, v) && Quiet(a)
    ensures Settled(Step(w, a), p, v)
  {
    var n := Step(w, a);
    if a.Go? && a.t < |w.threads| {
      assert Fresh(w.threads[a.t], p, v);
    }
    forall t | 0 <= t < |n.threads| ensures Fresh(n.threads[t], p, v) {
      assert Fresh(w.threads[if t < |w.threads| then t else 0], p, v);
      StepsStayFresh(w, a, p, v, if t < |w.threads| then t else 0);
    }
  }

  /** Once current, lookups and refreshes neither open nor close anything nor touch a field. */
  lemma CurrentKept(w: World, a: Action, p: string, v: Version)
    requires Traced(w) && Settled(w, p, v) && Current(w, p, v) && Quiet(a)
    ensures var n := Step(w, a);
      Current(n, p, v) && n.fields == w.fields && n.handles == w.handles && n.closed == w.closed
  {
    if a.Go? && a.t < |w.threads| {
      assert ThreadOk(w, w.threads[a.t]) && Fresh(w.threads[a.t], p, v);
      assert !w.threads[a.t].Closing?;
    }
  }

  /** A refresh that ends in a settled world ends current. */
  lemma FinishedIsCurrent(w: World, t: nat, p: string, v: Version)
    requires Traced(w) && Settled(w, p, v) && t < |w.threads| && InRefresh(w.threads[t])
    ensures InRefresh(Advance(w, t).threads[t]) || Current(Advance(w, t), p, v)
  {
    assert LockAt(w, t) && ThreadOk(w, w.threads[t]) && Fresh(w.threads[t], p, v);
    var n := Advance(w, t);
    if !InRefresh(n.threads[t]) {
      NoCloseWithoutLock(w, t);
    }
  }

  lemma OneStepCatchesUp(w: World, a: Action, t: nat, p: string, v: Version)
    requires Traced(w) && Settled(w, p, v) && t < |w.threads| && Quiet(a)
    requires InRefresh(w.threads[t]) || Current(w, p, v)
    ensures t < |Step(w, a).threads| && (InRefresh(Step(w, a).threads[t]) || Current(Step(w, a), p, v))
  {
    if Current(w, p, v) {
      CurrentKept(w, a, p, v);
    }
    if a == Go(t) {
      if InRefresh(w.threads[t]) {
        FinishedIsCurrent(w, t, p, v);
      }
    } else {
      OthersStay(w, a, t);
    }
  }

  /** A refresh begun in a settled world is still under way or has left the watcher current. */
  lemma {:induction false} RefreshCatchesUp(w: World, actions: seq<Action>, t: nat, p: string, v: Version)
    requires Traced(w) && Settled(w, p, v) && t < |w.threads|
    requires InRefresh(w.threads[t]) || Current(w, p, v)
    requires forall k :: 0 <= k < |actions| ==> Quiet(actions[k])
    ensures var n := Run(w, actions);
      Traced(n) && Settled(n, p, v) && t < |n.threads| && (InRefresh(n.threads[t]) || Current(n, p, v))
    decreases |actions|
  {
    if actions != [] {
      TracedKept(w, actions[0]);
      SettledKept(w, actions[0], p, v);
      OneStepCatchesUp(w, actions[0], t, p, v);
      RefreshCatchesUp(Step(w, actions[0]), actions[1..], t, p, v);
    }
  }

  lemma {:induction false} StaysCurrent(w: World, actions: seq<Action>, p: string, v: Version)
    requires Traced(w) && Settled(w, p, v) && Current(w, p, v)
    requires forall k :: 0 <= k < |actions| ==> Quiet(actions[k])
    ensures var n := Run(w, actions); n.fields == w.fields && n.handles == w.handles && n.closed == w.closed
    decreases |actions|
  {
    if actions != [] {
      TracedKept(w, actions[0]);
      SettledKept(w, actions[0], p, v);
      CurrentKept(w, actions[0], p, v);
      StaysCurrent(Step(w, actions[0]), actions[1..], p, v);
    }
  }

  lemma SettledRefreshIsEnough(s: World, t: nat, lookup: bool, during: seq<Action>, p: string, v: Version)
    requires Traced(s) && Settled(s, p, v) && t < |s.threads| && s.threads[t].Idle?
    requires forall k :: 0 <= k < |during| ==> Quiet(during[k])
    ensures var n := Run(Step(s, Begin(lookup, t)), during);
      Traced(n) && Settled(n, p, v) && t < |n.threads| && (InRefresh(n.threads[t]) || Current(n, p, v))
  {
    TracedKept(s, Begin(lookup, t));
    SettledKept(s, Begin(lookup, t), p, v);
    RefreshCatchesUp(Step(s, Begin(lookup, t)), during, t, p, v);
  }

  function Begin(lookup: bool, t: nat): Action {
    if lookup then StartLookup(t) else StartRefresh(t)
  }

  /**
   From a new watcher, after any history: once the file has stopped changing and no refresh
   with an older stat is left, one refresh more that ends leaves the reader on the file's
   content, and no lookup or refresh after it opens, closes or changes anything.
   */
  lemma OneRefreshIsEnough(w: World, before: seq<Action>, t: nat, lookup: bool, during: seq<Action>, after: seq<Action>,
                           p: string, v: Version)
    requires Initial(w)
    requires var s := Run(w, before); Settled(s, p, v) && t < |s.threads| && s.threads[t].Idle?
    requires forall k :: 0 <= k < |during| ==> Quiet(during[k])
    requires forall k :: 0 <= k < |after| ==> Quiet(after[k])
    ensures var n := Run(Step(Run(w, before), Begin(lookup, t)), during); var m := Run(n, after);
      t < |n.threads| && (!InRefresh(n.threads[t]) ==>
        && n.fields.reader.Some? && n.fields.reader.value < |n.handles| && n.handles[n.fields.reader.value] == v
        && m.fields == n.fields && m.handles == n.handles && m.closed == n.closed)
  {
    InitialIsTraced(w);
    RunsAreTraced(w, before);
    SettledRefreshIsEnough(Run(w, before), t, lookup, during, p, v);
    var n := Run(Step(Run(w, before), Begin(lookup, t)), during);
    if !InRefresh(n.threads[t]) {
      CurrentMeansUpToDate(n, p, v);
      StaysCurrent(n, after, p, v);
    }
  }

  // ---------- One thread moving on its own ----------

  function Goes(t: nat, n: nat): seq<Action> {
    if n == 0 then [] else [Go(t)] + Goes(t, n - 1)
  }

  function Alone(w: World, t: nat, n: nat): World {
    Run(w, Goes(t, n))
  }

  lemma AloneUnfolds(w: World, t: nat, n: nat)
    requires t < |w.threads| && n > 0
    ensures Alone(w, t, n) == Alone(Advance(w, t), t, n - 1)
  {
    assert Goes(t, n)[1..] == Goes(t, n - 1);
  }

  /** A thread out of the refresh changes neither fields nor handles; an idle one changes nothing. */
  lemma {:induction false} AloneAfterwards(w: World, t: nat, n: nat)
    requires t < |w.threads| && (w.threads[t].Idle? || w.threads[t].Ready? || w.threads[t].Reading?)
    ensures Alone(w, t, n).fields == w.fields && Alone(w, t, n).handles == w.handles
    ensures w.threads[t].Idle? ==> Alone(w, t, n) == w
    decreases n
  {
    if n > 0 {
      AloneUnfolds(w, t, n);
      AloneAfterwards(Advance(w, t), t, n - 1);
    }
  }

  function StampOf(file: Option<Version>): Option<Stamp> {
    if file.None? then None else Some(file.value.stamp)
  }

  lemma AloneFromOpened(w: World, t: nat, job: Job, result: Result<nat, OpenError>, n: nat)
    requires t < |w.threads| && w.threads[t] == Opened(job, result) && n >= 2
    ensures Alone(w, t, n).fields == Installed(w.fields, job.path, job.Seen(), result)
    ensures !job.lookup ==> var e := Alone(w, t, n);
      e.threads == w.threads[t := Idle] && e.writer.None? && e.readers == w.readers
  {
    var w1 := Advance(w, t);
    var w2 := Advance(w1, t);
    AloneUnfolds(w, t, n);
    AloneUnfolds(w1, t, n - 1);
    AloneAfterwards(w2, t, n - 2);
    assert w2.threads == w.threads[t := Done(job.lookup)];
  }

  lemma AloneFromHolding(w: World, t: nat, job: Job, n: nat)
    requires t < |w.threads| && w.threads[t] == Holding(job) && w.writer == Some(t) && n >= 3
    ensures Alone(w, t, n).fields ==
      if Matches(w.fields, job.path, job.Seen()) then w.fields
      else Installed(w.fields, job.path, job.Seen(), if job.file.None? then Err(StatFailed) else OpenAt(w, job.path))
    ensures !job.lookup ==> var e := Alone(w, t, n);
      e.threads == w.threads[t := Idle] && e.writer.None? && e.readers == w.readers
  {
    var w1 := Advance(w, t);
    AloneUnfolds(w, t, n);
    if w1.threads[t].Opened? {
      AloneFromOpened(w1, t, job, w1.threads[t].result, n - 1);
      assert w1.threads[t := Idle] == w.threads[t := Idle];
    } else {
      AloneAfterwards(w1, t, n - 1);
    }
  }

  lemma AloneFromComparing(w: World, t: nat, job: Job, n: nat)
    requires t < |w.threads| && Unlocked(w) && n >= 5
    requires w.threads[t] == Comparing(job)
    ensures Alone(w, t, n).fields ==
      if Matches(w.fields, job.path, job.Seen()) then w.fields
      else Installed(w.fields, job.path, job.Seen(), if job.file.None? then Err(StatFailed) else OpenAt(w, job.path))
    ensures !job.lookup ==> Alone(w, t, n).threads == w.threads[t := Idle] && Unlocked(Alone(w, t, n))
  {
    var w1 := Advance(w, t);
    AloneUnfolds(w, t, n);
    if w1.threads[t].Waiting? {
      var w2 := Advance(w1, t);
      AloneUnfolds(w1, t, n - 1);
      AloneFromHolding(w2, t, job, n - 2);
      assert w2.threads[t := Idle] == w.threads[t := Idle];
    } else {
      AloneAfterwards(w1, t, n - 1);
    }
  }

  lemma AloneFromStatting(w: World, t: nat, path: string)
    requires t < |w.threads| && Unlocked(w) && w.threads[t] == Statting(false, path)
    ensures var stat := StampOf(FileAt(w.disk, path)); var n := Alone(w, t, 6);
      && n.fields == (if Matches(w.fields, path, Compared(stat)) then w.fields
                      else Installed(w.fields, path, Compared(stat), if stat.None? then Err(StatFailed) else OpenAt(w, path)))
      && n.threads == w.threads[t := Idle] && Unlocked(n)
  {
    var w1 := Advance(w, t);
    AloneUnfolds(w, t, 6);
    AloneFromComparing(w1, t, Job(false, path, FileAt(w.disk, path)), 5);
    assert w1.threads[t := Idle] == w.threads[t := Idle];
  }

  /** A refresh begun with the lock free and no other thread moving is the object's `Refresh`. */
  lemma AloneIsRefresh(w: World, t: nat)
    requires Unlocked(w) && t < |w.threads| && w.threads[t].Idle?
    ensures var n := Alone(Step(w, StartRefresh(t)), t, 7);
      && n.fields == Refreshed(w.fields, StampOf(FileAt(w.disk, w.fields.path)), OpenAt(w, w.fields.path))
      && n.threads == w.threads && Unlocked(n)
  {
    var w0 := Step(w, StartRefresh(t));
    var w1 := Advance(w0, t);
    AloneUnfolds(w0, t, 7);
    assert w1.threads[t := Idle] == w.threads;
    if w1.threads[t].Statting? {
      AloneFromStatting(w1, t, w.fields.path);
    } else {
      AloneAfterwards(w1, t, 6);
    }
  }

  /** A close begun with the lock free is the object's `Close`: the handle is closed, once, and nothing else changes. */
  lemma AloneIsClose(w: World, t: nat)
    requires Unlocked(w) && t < |w.threads| && w.threads[t].Idle?
    ensures var n := Alone(Step(w, StartClose(t)), t, 1);
      && n.fields == (if w.fields.reader.None? then w.fields else Emptied(w.fields))
      && n.closed == w.closed + Held(w.fields.reader) && n.handles == w.handles && n.disk == w.disk
      && n.threads == w.threads && Unlocked(n)
  {
    AloneUnfolds(Step(w, StartClose(t)), t, 1);
  }

  /** A lookup that has refreshed reads what is loaded when it gets the lock, and leaves everything as it was. */
  lemma AloneReads(w: World, t: nat)
    requires LocksOk(w) && w.writer.None? && t < |w.threads| && w.threads[t].Ready?
    ensures t < |Alone(w, t, 1).threads| && Alone(w, t, 1).threads[t] == Reading(w.fields.reader)
    ensures Alone(w, t, 2) == w.(threads := w.threads[t := Idle])
  {
    assert LockAt(w, t);
    AloneUnfolds(w, t, 1);
    AloneUnfolds(w, t, 2);
    AloneUnfolds(Advance(w, t), t, 1);
    assert w.readers + {t} - {t} == w.readers;
  }
}
