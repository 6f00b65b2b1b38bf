/**
 The hot-reloading database watcher (geoip/watcher.go): its fields and what each
 critical section does to them, and the interleaved protocol under one
 reader/writer lock, with a disk that changes underneath.
 */
module Watcher {
  import opened Common

  /** Modification time and size, the only things a refresh compares. */
  datatype Stamp = Stamp(modTime: int, size: int)

  const ZERO_STAMP := Stamp(0, 0)

  datatype OpenError = StatFailed | OpenFailed

  /** Readers are handles, numbered as they are opened. */
  datatype Fields = Fields(enabled: bool, path: string, reader: Option<nat>, stamp: Stamp, openErr: Option<OpenError>)

  /** What a refresh compares with when the file is missing is the zero stamp. */
  function Compared(stat: Option<Stamp>): Stamp {
    if stat.None? then ZERO_STAMP else stat.value
  }

  predicate Matches(f: Fields, path: string, seen: Stamp) {
    f.reader.Some? && f.path == path && f.stamp == seen
  }

  /** The outcome of a reload; it writes back the path that was captured when the refresh began. */
  function Installed(f: Fields, path: string, seen: Stamp, result: Result<nat, OpenError>): Fields {
    match result
    case Ok(h) => f.(reader := Some(h), path := path, stamp := seen, openErr := None)
    case Err(e) => f.(reader := None, path := path, stamp := seen, openErr := Some(e))
  }

  /** A refresh does nothing when disabled, unset or up to date by its own test. */
  predicate Skips(f: Fields, stat: Option<Stamp>) {
    !f.enabled || f.path == "" || Matches(f, f.path, Compared(stat))
  }

  /** A whole refresh with nothing in between: `stat` and `result` are what the file answers. */
  function Refreshed(f: Fields, stat: Option<Stamp>, result: Result<nat, OpenError>): Fields {
    if Skips(f, stat) then f
    else Installed(f, f.path, Compared(stat), if stat.None? then Err(StatFailed) else result)
  }

  function Emptied(f: Fields): Fields {
    f.(reader := None, stamp := ZERO_STAMP)
  }

  // ---------- The object, one call at a time ----------

  class Watcher {
    var enabled: bool
    var path: string
    var reader: Option<nat>
    var stamp: Stamp
    var openErr: Option<OpenError>

    ghost function View(): Fields
      reads this
    {
      Fields(enabled, path, reader, stamp, openErr)
    }

    constructor (path: string, enabled: bool)
      ensures View() == Fields(enabled, path, None, ZERO_STAMP, None)
    {
      this.enabled, this.path, reader, stamp, openErr := enabled, path, None, ZERO_STAMP, None;
    }

    method SetPath(path: string)
      modifies this
      ensures View() == old(View()).(path := path)
    {
      this.path := path;
    }

    method SetEnabled(enabled: bool)
      modifies this
      ensures View() == old(View()).(enabled := enabled)
    {
      this.enabled := enabled;
    }

    /** `info` is what a loaded database says of itself. An error is never reported beside a loaded database. */
    method Status<Info>(info: nat -> Info)
      returns (enabled: bool, path: string, loaded: Option<Info>, error: Option<OpenError>)
      ensures enabled == this.enabled && path == this.path && error == openErr
      ensures loaded == if reader.Some? then Some(info(reader.value)) else None
      ensures ErrorOk(View()) ==> loaded.None? || error.None?
    {
      return this.enabled, this.path, if reader.Some? then Some(info(reader.value)) else None, openErr;
    }

    /** `closed` is the handle closed, if one was loaded. */
    method Close() returns (closed: Option<nat>)
      modifies this
      ensures closed == old(reader)
      ensures View() == if old(reader).None? then old(View()) else Emptied(old(View()))
      ensures reader == None && (enabled, path, openErr) == old((enabled, path, openErr))
      ensures old(reader).Some? ==> stamp == ZERO_STAMP
    {
      closed := reader;
      if reader.None? {
        return;
      }
      reader, stamp := None, ZERO_STAMP;
    }

    /** `stat` and `open` are what the operating system would answer now. */
    method Refresh(stat: string -> Option<Stamp>, open: string -> Result<nat, OpenError>) returns (closed: Option<nat>)
      modifies this
      ensures View() == Refreshed(old(View()), stat(old(path)), open(old(path)))
      ensures Skips(old(View()), stat(path)) <==>
        old(!enabled || path == "" || (reader.Some? && stamp == if stat(path).None? then ZERO_STAMP else stat(path).value))
      ensures enabled == old(enabled) && path == old(path)
      ensures Skips(old(View()), stat(path)) ==> (reader, stamp, openErr) == old((reader, stamp, openErr))
      ensures !Skips(old(View()), stat(path)) && stat(path).None? ==> reader == None && openErr == Some(StatFailed)
      ensures !Skips(old(View()), stat(path)) && stat(path).Some? && open(path).Err? ==>
        reader == None && openErr == Some(open(path).error)
      ensures !Skips(old(View()), stat(path)) && stat(path).Some? && open(path).Ok? ==>
        reader == Some(open(path).value) && stamp == stat(path).value && openErr == None
      ensures closed == if Skips(old(View()), stat(old(path))) then None else old(reader)
      ensures reader.Some? && (old(reader).Some? ==> old(openErr).None?) ==> openErr.None?
    {
      closed := None;
      if !enabled || path == "" {
        return;
      }
      var info := stat(path);
      var seen := if info.None? then ZERO_STAMP else info.value;
      if reader.Some? && stamp == seen {
        return;
      }
      if info.None? {
        closed := reader;
        reader, stamp, openErr := None, ZERO_STAMP, Some(StatFailed);
        return;
      }
      var attempt := open(path);
      closed := reader;
      if attempt.Err? {
        reader, stamp, openErr := None, seen, Some(attempt.error);
        return;
      }
      reader, stamp, openErr := Some(attempt.value), seen, None;
    }
  }

  // ---------- The protocol ----------

  /** One content ever put in place at a path; `serial` orders them. */
  datatype Version = Version(serial: nat, path: string, readable: bool, stamp: Stamp)

  /** `made` is every version so far, `files` those in place now. */
  datatype Disk = Disk(next: nat, made: set<Version>, files: map<string, Version>)

  function Replaced(d: Disk, path: string, readable: bool, stamp: Stamp): Disk {
    var v := Version(d.next, path, readable, stamp);
    Disk(d.next + 1, d.made + {v}, d.files[path := v])
  }

  /** A refresh under way: the path it captured and the version its stat saw. */
  datatype Job = Job(lookup: bool, path: string, file: Option<Version>) {
    function Seen(): Stamp {
      if file.None? then ZERO_STAMP else file.value.stamp
    }
  }

  datatype Thread =
    | Idle
    | Entered(lookup: bool)
    | Statting(lookup: bool, path: string)
    | Comparing(job: Job)
    | Waiting(job: Job)
    | Holding(job: Job)
    | Opened(job: Job, result: Result<nat, OpenError>)
    | Swapping(job: Job, result: Result<nat, OpenError>)
    | Ready
    | Reading(handle: Option<nat>)
    | Closing

  /**
   `handles` gives the version behind each handle, `closed` logs every close and
   `recorded` the version whose stamp was recorded last.
   */
  datatype World = World(fields: Fields, disk: Disk, handles: seq<Version>, closed: seq<nat>, recorded: Option<Version>,
                         writer: Option<nat>, readers: set<nat>, threads: seq<Thread>)

  datatype Action =
    | SetPath(path: string)
    | SetEnabled(enabled: bool)
    | Replace(path: string, readable: bool, stamp: Stamp)
    | Remove(path: string)
    | StartLookup(t: nat)
    | StartRefresh(t: nat)
    | StartClose(t: nat)
    | Go(t: nat)

  function Become(w: World, t: nat, p: Thread): World
    requires t < |w.threads|
  {
    w.(threads := w.threads[t := p])
  }

  /** A refresh is over: a lookup goes on to read, a plain refresh returns. */
  function Done(lookup: bool): Thread {
    if lookup then Ready else Idle
  }

  predicate Unlocked(w: World) {
    w.writer.None? && w.readers == {}
  }

  function FileAt(d: Disk, path: string): Option<Version> {
    if path in d.files then Some(d.files[path]) else None
  }

  /** The handle a successful open would get. */
  function OpenAt(w: World, path: string): Result<nat, OpenError> {
    if path in w.disk.files && w.disk.files[path].readable then Ok(|w.handles|) else Err(OpenFailed)
  }

  function OpenedAt(w: World, path: string): World {
    if path in w.disk.files && w.disk.files[path].readable then w.(handles := w.handles + [w.disk.files[path]]) else w
  }

  /** Under the write lock: check again, and if the file changed, open what is there now. */
  function Reopen(w: World, t: nat, job: Job): World
    requires t < |w.threads|
  {
    if Matches(w.fields, job.path, job.Seen()) then Become(w.(writer := None), t, Done(job.lookup))
    else if job.file.None? then Become(w, t, Opened(job, Err(StatFailed)))
    else Become(OpenedAt(w, job.path), t, Opened(job, OpenAt(w, job.path)))
  }

  function CloseReader(w: World): World {
    if w.fields.reader.Some? then w.(closed := w.closed + [w.fields.reader.value]) else w
  }

  /** The next step of a thread; it waits while the lock it needs is not free. */
  function Advance(w: World, t: nat): World
    requires t < |w.threads|
  {
    match w.threads[t]
    case Idle => w
    case Entered(lookup) =>
      if w.writer.Some? then w
      else if !w.fields.enabled || w.fields.path == "" then Become(w, t, Done(lookup))
      else Become(w, t, Statting(lookup, w.fields.path))
    case Statting(lookup, path) => Become(w, t, Comparing(Job(lookup, path, FileAt(w.disk, path))))
    case Comparing(job) =>
      if w.writer.Some? then w
      else if Matches(w.fields, job.path, job.Seen()) then Become(w, t, Done(job.lookup))
      else Become(w, t, Waiting(job))
    case Waiting(job) => if Unlocked(w) then Become(w.(writer := Some(t)), t, Holding(job)) else w
    case Holding(job) => Reopen(w, t, job)
    case Opened(job, result) => Become(CloseReader(w), t, Swapping(job, result))
    case Swapping(job, result) =>
      Become(w.(fields := Installed(w.fields, job.path, job.Seen(), result), recorded := job.file, writer := None), t, Done(job.lookup))
    case Ready => if w.writer.Some? then w else Become(w.(readers := w.readers + {t}), t, Reading(w.fields.reader))
    case Reading(_) => Become(w.(readers := w.readers - {t}), t, Idle)
    case Closing => Become(w.(fields := Emptied(w.fields), writer := None), t, Idle)
  }

  function Step(w: World, a: Action): World {
    match a
    case SetPath(path) => if Unlocked(w) then w.(fields := w.fields.(path := path)) else w
    case SetEnabled(enabled) => if Unlocked(w) then w.(fields := w.fields.(enabled := enabled)) else w
    case Replace(path, readable, stamp) => w.(disk := Replaced(w.disk, path, readable, stamp))
    case Remove(path) => w.(disk := w.disk.(files := w.disk.files - {path}))
    case StartLookup(t) => if t < |w.threads| && w.threads[t].Idle? then Become(w, t, Entered(true)) else w
    case StartRefresh(t) => if t < |w.threads| && w.threads[t].Idle? then Become(w, t, Entered(false)) else w
    case StartClose(t) =>
      if t < |w.threads| && w.threads[t].Idle? && Unlocked(w) && w.fields.reader.Some? then
        Become(CloseReader(w).(writer := Some(t)), t, Closing)
      else w
    case Go(t) => if t < |w.threads| then Advance(w, t) else w
  }

  function Run(w: World, actions: seq<Action>): World
    decreases |actions|
  {
    if actions == [] then w else Run(Step(w, actions[0]), actions[1..])
  }

  /** Nothing opened, nothing closed, every thread idle, any disk without files. */
  predicate Initial(w: World) {
    && w.fields.reader == None && w.fields.openErr == None
    && w.disk.made == {} && w.disk.files == map[]
    && w.handles == [] && w.closed == [] && w.writer == None && w.readers == {}
    && forall t :: 0 <= t < |w.threads| ==> w.threads[t] == Idle
  }

  // ---------- What every reachable world satisfies ----------

  predicate HasLock(p: Thread) {
    p.Holding? || p.Opened? || p.Swapping? || p.Closing?
  }

  /** Thread `t` holds exactly the locks its place in the code says. */
  predicate LockAt(w: World, t: nat)
    requires t < |w.threads|
  {
    && (HasLock(w.threads[t]) <==> w.writer == Some(t))
    && (w.threads[t].Reading? <==> t in w.readers)
    && (w.threads[t].Reading? ==> w.threads[t].handle == w.fields.reader)
  }

  ghost predicate LocksOk(w: World) {
    && (w.writer.Some? ==> w.writer.value < |w.threads| && w.readers == {})
    && forall t :: 0 <= t < |w.threads| ==> LockAt(w, t)
  }

  function Held(reader: Option<nat>): seq<nat> {
    if reader.Some? then [reader.value] else []
  }

  function Gained(result: Result<nat, OpenError>): seq<nat> {
    if result.Ok? then [result.value] else []
  }

  /** The handles that are open: the reader's, and one on its way in while a reload holds the lock. */
  function Live(w: World): seq<nat> {
    if w.writer.None? || w.writer.value >= |w.threads| then Held(w.fields.reader) else
    match w.threads[w.writer.value]
    case Opened(_, result) => Held(w.fields.reader) + Gained(result)
    case Swapping(_, result) => Gained(result)
    case Closing => []
    case _ => Held(w.fields.reader)
  }

  ghost predicate Distinct(s: seq<nat>) {
    forall i, j :: 0 <= i < j < |s| ==> s[i] != s[j]
  }

  ghost predicate Below(s: seq<nat>, n: nat) {
    forall i :: 0 <= i < |s| ==> s[i] < n
  }

  lemma OneMore(s: seq<nat>, n: nat)
    requires Distinct(s) && Below(s, n)
    ensures Distinct(s + [n]) && Below(s + [n], n + 1)
  {
  }

  /** Every handle ever opened is closed exactly once or is live, never both. */
  ghost predicate HandlesOk(w: World) {
    && Distinct(w.closed + Live(w))
    && Below(w.closed + Live(w), |w.handles|)
    && |w.closed + Live(w)| == |w.handles|
  }

  lemma LiveIsOpen(w: World, h: nat)
    requires HandlesOk(w) && h in Live(w)
    ensures h < |w.handles| && h !in w.closed
  {
    var all := w.closed + Live(w);
    var k :| 0 <= k < |Live(w)| && Live(w)[k] == h;
    assert all[|w.closed| + k] == h;
    forall i | 0 <= i < |w.closed| ensures w.closed[i] != h {
      assert all[i] == w.closed[i];
    }
  }

  lemma LockAtAdvance(w: World, t: nat, u: nat)
    requires LocksOk(w) && t < |w.threads| && u < |w.threads|
    ensures LockAt(Advance(w, t), u)
  {
    assert LockAt(w, t) && LockAt(w, u);
  }

  lemma LockAtKept(w: World, a: Action, u: nat)
    requires LocksOk(w) && u < |w.threads|
    ensures |Step(w, a).threads| == |w.threads| && LockAt(Step(w, a), u)
  {
    assert LockAt(w, u);
    if a.Go? && a.t < |w.threads| {
      LockAtAdvance(w, a.t, u);
    } else {
    }
  }

  lemma WriterKept(w: World, a: Action)
    requires LocksOk(w)
    ensures var n := Step(w, a); n.writer.Some? ==> n.writer.value < |n.threads| && n.readers == {}
  {
    if a.Go? && a.t < |w.threads| {
      assert LockAt(w, a.t);
    }
  }

  lemma LocksKept(w: World, a: Action)
    requires LocksOk(w)
    ensures LocksOk(Step(w, a))
  {
    var n := Step(w, a);
    WriterKept(w, a);
    forall u | 0 <= u < |n.threads| ensures LockAt(n, u) {
      LockAtKept(w, a, u);
    }
  }

  /** A step of a thread without the lock, or one that leaves the lock's holder as it is, changes no handle. */
  lemma HandlesQuiet(w: World, a: Action)
    requires LocksOk(w)
    requires !a.StartClose?
    requires a.Go? && a.t < |w.threads| ==> !HasLock(w.threads[a.t])
    ensures var n := Step(w, a); n.handles == w.handles && n.closed == w.closed && Live(n) == Live(w)
  {
    if a.Go? && a.t < |w.threads| {
      assert LockAt(w, a.t);
    }
    if w.writer.Some? {
      assert LockAt(w, w.writer.value);
    }
  }

  lemma HandlesAdvance(w: World, t: nat)
    requires LocksOk(w) && HandlesOk(w) && t < |w.threads| && HasLock(w.threads[t])
    ensures HandlesOk(Advance(w, t))
  {
    assert LockAt(w, t);
    var n := Advance(w, t);
    match w.threads[t] {
      case Holding(job) =>
        if |n.handles| > |w.handles| {
          assert n.closed + Live(n) == (w.closed + Live(w)) + [|w.handles|];
          OneMore(w.closed + Live(w), |w.handles|);
        } else {
          assert n.closed + Live(n) == w.closed + Live(w);
        }
      case Opened(job, result) =>
        assert n.closed + Live(n) == w.closed + Live(w);
      case Swapping(job, result) =>
        assert Live(n) == Live(w);
      case Closing =>
        assert Live(n) == Live(w);
    }
  }

  lemma HandlesKept(w: World, a: Action)
    requires LocksOk(w) && HandlesOk(w)
    ensures HandlesOk(Step(w, a))
  {
    if a.Go? && a.t < |w.threads| && HasLock(w.threads[a.t]) {
      HandlesAdvance(w, a.t);
    } else if !a.StartClose? {
      HandlesQuiet(w, a);
    } else {
      assert Step(w, a).closed + Live(Step(w, a)) == w.closed + Live(w);
    }
  }

  /** A loaded reader leaves no stored open error. */
  predicate ErrorOk(f: Fields) {
    f.reader.Some? ==> f.openErr.None?
  }

  ghost predicate Safe(w: World) {
    LocksOk(w) && HandlesOk(w) && ErrorOk(w.fields)
  }

  lemma {:induction false} RunsAreSafe(w: World, actions: seq<Action>)
    requires Safe(w)
    ensures Safe(Run(w, actions))
    decreases |actions|
  {
    if actions != [] {
      LocksKept(w, actions[0]);
      HandlesKept(w, actions[0]);
      assert ErrorOk(Step(w, actions[0]).fields);
      RunsAreSafe(Step(w, actions[0]), actions[1..]);
    }
  }

  lemma InitialIsSafe(w: World)
    requires Initial(w)
    ensures Safe(w)
  {
    forall t | 0 <= t < |w.threads| ensures LockAt(w, t) {
      assert w.threads[t] == Idle;
    }
  }

  /**
   From a new watcher, whatever the threads and the disk do: nobody reads a closed
   handle, no handle is closed twice, and with nobody holding the write lock the
   handles opened are those closed plus the reader's.
   */
  lemma NoUseAfterClose(w: World, actions: seq<Action>)
    requires Initial(w)
    ensures var n := Run(w, actions);
      && (forall t :: 0 <= t < |n.threads| && n.threads[t].Reading? && n.threads[t].handle.Some? ==>
           n.threads[t].handle.value < |n.handles| && n.threads[t].handle.value !in n.closed)
      && Distinct(n.closed)
      && (n.writer.None? ==> |n.handles| == |n.closed| + (if n.fields.reader.Some? then 1 else 0))
      && (n.fields.reader.Some? ==> n.fields.openErr.None?)
  {
    InitialIsSafe(w);
    RunsAreSafe(w, actions);
    var n := Run(w, actions);
    var all := n.closed + Live(n);
    forall t | 0 <= t < |n.threads| && n.threads[t].Reading? && n.threads[t].handle.Some?
      ensures n.threads[t].handle.value < |n.handles| && n.threads[t].handle.value !in n.closed
    {
      assert LockAt(n, t);
      LiveIsOpen(n, n.threads[t].handle.value);
    }
    forall i, j | 0 <= i < j < |n.closed| ensures n.closed[i] != n.closed[j] {
      assert all[i] == n.closed[i] && all[j] == n.closed[j];
    }
  }
}
