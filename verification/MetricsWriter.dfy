/**
 The background metrics writer of core/orchestrator/loop.py, in every interleaving with
 the main loop.  The contents of the metrics dictionary are numbered: each update of a
 field makes the next version, and a snapshot or a file is the version it holds.
 */
module MetricsWriter {
  import opened Wrappers

  type Version = nat

  function SnapshotOf(dirty: nat, metrics: Version): Option<Version> {
    if dirty == 0 then None else Some(metrics)
  }

  // ---------------------------------------------------------------------------
  // Both threads
  // ---------------------------------------------------------------------------

  /** Where the main thread is: in the loop, waiting for the join, or in the final flush. */
  datatype Main = Looping | Joining | Flushing | Returned

  datatype System = System(
    metrics: Version,              // the dictionary in memory
    marked: Version,               // its version at the last mark_dirty
    dirty: nat,
    threadPending: Option<Version>, threadDone: bool,
    mainPending: Option<Version>, main: Main,
    disk: Version)

  datatype Step =
    | Update                          // main changes a field, without the lock
    | Mark
    | ThreadSnapshot | ThreadWrite(ok: bool) | ThreadExit
    | Stop                            // stop(): sets the event, right after a mark
    | Join                            // the join returns because the thread is done
    | MainSnapshot | MainWrite(ok: bool)

  predicate Initial(s: System) {
    s == System(0, 0, 0, None, false, None, Looping, 0)
  }

  predicate Enabled(s: System, x: Step) {
    match x
    case Update => s.main == Looping
    case Mark => s.main == Looping
    case ThreadSnapshot => !s.threadDone && s.threadPending.None?
    case ThreadWrite(_) => !s.threadDone && s.threadPending.Some?
    case ThreadExit => !s.threadDone && s.threadPending.None? && s.main != Looping
    case Stop => s.main == Looping && s.marked == s.metrics
    case Join => s.main == Joining && s.threadDone
    case MainSnapshot => s.main == Flushing && s.mainPending.None?
    case MainWrite(_) => s.main == Flushing && s.mainPending.Some?
  }

  function Apply(s: System, x: Step): System
    requires Enabled(s, x)
  {
    match x
    case Update => s.(metrics := s.metrics + 1)
    case Mark => s.(marked := s.metrics, dirty := s.dirty + 1)
    case ThreadSnapshot => s.(threadPending := SnapshotOf(s.dirty, s.metrics), dirty := 0)
    case ThreadWrite(ok) =>
      s.(disk := if ok then s.threadPending.value else s.disk, threadPending := None)
    case ThreadExit => s.(threadDone := true)
    case Stop => s.(main := Joining)
    case Join => s.(main := Flushing)
    case MainSnapshot =>
      var snapshot := SnapshotOf(s.dirty, s.metrics);
      s.(mainPending := snapshot, dirty := 0, main := if snapshot.None? then Returned else Flushing)
    case MainWrite(ok) =>
      s.(disk := if ok then s.mainPending.value else s.disk, mainPending := None, main := Returned)
  }

  predicate IsRun(s: System, run: seq<Step>, u: System)
    decreases |run|
  {
    if run == [] then s == u
    else Enabled(s, run[0]) && IsRun(Apply(s, run[0]), run[1..], u)
  }

  /** Did the last write of the run succeed?  `before` is the answer for what came before. */
  predicate LastWriteOk(before: bool, run: seq<Step>)
    decreases |run|
  {
    if run == [] then before else LastWriteOk(WriteOk(before, run[0]), run[1..])
  }

  predicate WriteOk(before: bool, x: Step) {
    match x
    case ThreadWrite(ok) => ok
    case MainWrite(ok) => ok
    case _ => before
  }

  /** The marked state is on disk or superseded there, or in a snapshot about to be
      written, or still counted as dirty. */
  predicate NothingLost(s: System) {
    || s.marked <= s.disk
    || (s.threadPending.Some? && s.marked <= s.threadPending.value)
    || (s.mainPending.Some? && s.marked <= s.mainPending.value)
    || s.dirty > 0
  }

  /** `ok` says whether the last write so far succeeded. */
  predicate Inv(s: System, ok: bool) {
    && s.marked <= s.metrics && s.disk <= s.metrics
    && (s.threadPending.Some? ==>
          && s.disk <= s.threadPending.value <= s.metrics && !s.threadDone
          && (s.marked <= s.threadPending.value || s.dirty > 0))
    && (s.mainPending.Some? ==> s.disk <= s.mainPending.value && s.mainPending.value == s.metrics && s.main == Flushing && s.dirty == 0)
    && (s.main != Looping ==> s.marked == s.metrics)
    && (s.main.Flushing? || s.main.Returned? ==> s.threadDone)
    && (ok ==> NothingLost(s))
    && (s.main == Returned ==> s.dirty == 0 && s.mainPending.None?)
  }

  lemma StepKeepsInv(s: System, ok: bool, x: Step)
    requires Inv(s, ok) && Enabled(s, x)
    ensures Inv(Apply(s, x), WriteOk(ok, x)) && s.disk <= Apply(s, x).disk
  {
  }

  /** In every interleaving, whatever writes fail, the file never goes back to an older
      version, and no marked update is lost as long as the last write succeeded. */
  lemma {:induction false} NoMarkedUpdateLost(s: System, ok: bool, run: seq<Step>, u: System)
    requires Inv(s, ok) && IsRun(s, run, u)
    ensures Inv(u, LastWriteOk(ok, run)) && s.disk <= u.disk
    ensures LastWriteOk(ok, run) ==> NothingLost(u)
    decreases |run|
  {
    if run != [] {
      StepKeepsInv(s, ok, run[0]);
      NoMarkedUpdateLost(Apply(s, run[0]), WriteOk(ok, run[0]), run[1..], u);
    }
  }

  /** When stop() returns after joining the thread and the last write succeeded, the file
      holds the final metrics. */
  lemma StopWritesFinalMetrics(s: System, run: seq<Step>, u: System)
    requires Initial(s) && IsRun(s, run, u) && u.main == Returned && LastWriteOk(true, run)
    ensures u.disk == u.metrics
  {
    NoMarkedUpdateLost(s, true, run, u);
  }

  /** Some write of the run succeeds with a snapshot of version v. */
  predicate Writes(s: System, run: seq<Step>, v: Version)
    decreases |run|
  {
    run != [] && Enabled(s, run[0]) && (WritesNow(s, run[0], v) || Writes(Apply(s, run[0]), run[1..], v))
  }

  predicate WritesNow(s: System, x: Step, v: Version)
    requires Enabled(s, x)
  {
    match x
    case ThreadWrite(ok) => ok && s.threadPending == Some(v)
    case MainWrite(ok) => ok && s.mainPending == Some(v)
    case _ => false
  }

  lemma {:induction false} DiskIsNewestWritten(s: System, ok: bool, run: seq<Step>, u: System, v: Version)
    requires Inv(s, ok) && IsRun(s, run, u)
    ensures u.disk == s.disk || Writes(s, run, u.disk)
    ensures Writes(s, run, v) ==> v <= u.disk
    decreases |run|
  {
    if run != [] {
      var s' := Apply(s, run[0]);
      StepKeepsInv(s, ok, run[0]);
      DiskIsNewestWritten(s', WriteOk(ok, run[0]), run[1..], u, v);
      NoMarkedUpdateLost(s', WriteOk(ok, run[0]), run[1..], u);
    }
  }

  /** When stop() returns, the file holds the final metrics if and only if there was no
      update at all, or some write succeeded whose snapshot was taken after the last one. */
  lemma FinalMetricsOnDiskIff(s: System, run: seq<Step>, u: System)
    requires Initial(s) && IsRun(s, run, u) && u.main == Returned
    ensures u.disk == u.metrics <==> u.metrics == 0 || Writes(s, run, u.metrics)
  {
    DiskIsNewestWritten(s, true, run, u, u.metrics);
    NoMarkedUpdateLost(s, true, run, u);
  }

  /** A flush that failed is not repeated: with nothing marked dirty and no snapshot pending
      the file stays as it is until the next mark, whatever else happens. */
  lemma {:induction false} NoWriteWithoutMark(s: System, run: seq<Step>, u: System)
    requires s.dirty == 0 && s.threadPending.None? && s.mainPending.None?
    requires IsRun(s, run, u) && Mark !in run
    ensures u.disk == s.disk
    decreases |run|
  {
    if run != [] {
      assert run[0] in run && forall x | x in run[1..] :: x in run;
      NoWriteWithoutMark(Apply(s, run[0]), run[1..], u);
    }
  }

  /** stop() never hangs on the writer: with the loop over, some step can be taken until it
      returns. */
  lemma StopCanFinish(s: System, ok: bool)
    requires Inv(s, ok) && s.main != Looping && s.main != Returned
    ensures exists x :: Enabled(s, x) && x in {ThreadWrite(true), ThreadExit, Join, MainSnapshot, MainWrite(true)}
  {
    if s.main == Joining {
      if s.threadDone {
        assert Enabled(s, Join);
      } else if s.threadPending.Some? {
        assert Enabled(s, ThreadWrite(true));
      } else {
        assert Enabled(s, ThreadExit);
      }
    } else if s.mainPending.Some? {
      assert Enabled(s, MainWrite(true));
    } else {
      assert Enabled(s, MainSnapshot);
    }
  }

  /** One failed write between the last mark and the end is enough to lose the update: the
      dirty count was cleared with the snapshot, so the final flush does nothing. */
  lemma FailedWriteLosesUpdate(s: System)
    requires Initial(s)
    ensures exists run, u :: IsRun(s, run, u) && u.main == Returned && u.disk < u.metrics
  {
    var s1 := Apply(s, Update);
    var s2 := Apply(s1, Mark);
    var s3 := Apply(s2, ThreadSnapshot);
    var s4 := Apply(s3, ThreadWrite(false));
    var s5 := Apply(s4, Stop);
    var s6 := Apply(s5, ThreadExit);
    var s7 := Apply(s6, Join);
    var s8 := Apply(s7, MainSnapshot);
    OneMore(s7, MainSnapshot, [], s8);
    OneMore(s6, Join, [MainSnapshot], s8);
    OneMore(s5, ThreadExit, [Join, MainSnapshot], s8);
    OneMore(s4, Stop, [ThreadExit, Join, MainSnapshot], s8);
    var tail := [Stop, ThreadExit, Join, MainSnapshot];
    OneMore(s3, ThreadWrite(false), tail, s8);
    OneMore(s2, ThreadSnapshot, [ThreadWrite(false)] + tail, s8);
    OneMore(s1, Mark, [ThreadSnapshot] + ([ThreadWrite(false)] + tail), s8);
    OneMore(s, Update, [Mark] + ([ThreadSnapshot] + ([ThreadWrite(false)] + tail)), s8);
  }

  lemma OneMore(s: System, x: Step, run: seq<Step>, u: System)
    requires Enabled(s, x) && IsRun(Apply(s, x), run, u)
    ensures IsRun(s, [x] + run, u)
  {
    assert ([x] + run)[1..] == run;
  }

  // ---------------------------------------------------------------------------
  // The critical sections of the writer
  // ---------------------------------------------------------------------------

  /** The fields of the writer and the file.  Each method takes the state of the whole
      system and carries out one of its steps on them. */
  class Writer {
    var dirtyCount: nat
    var disk: Version

    constructor ()
      ensures forall s | Initial(s) :: Shows(s)
    {
      dirtyCount, disk := 0, 0;
    }

    /** The object is the writer of this system. */
    predicate Shows(s: System)
      reads this
    {
      dirtyCount == s.dirty && disk == s.disk
    }

    method MarkDirty(ghost s: System)
      requires Shows(s) && Enabled(s, Mark)
      modifies this`dirtyCount
      ensures Shows(Apply(s, Mark))
    {
      dirtyCount := dirtyCount + 1;
    }

    /** The locked part of _flush_to_disk, by the thread or in stop(). */
    method TakeSnapshot(metrics: Version, ghost s: System, ghost byThread: bool) returns (snapshot: Option<Version>)
      requires Shows(s) && metrics == s.metrics && Enabled(s, SnapshotStep(byThread))
      modifies this`dirtyCount
      ensures Shows(Apply(s, SnapshotStep(byThread)))
      ensures snapshot == PendingOf(Apply(s, SnapshotStep(byThread)), byThread)
    {
      if dirtyCount == 0 {
        return None;
      }
      snapshot := Some(metrics);
      dirtyCount := 0;
    }

    /** The unlocked part: a write that fails is logged and forgotten. */
    method WriteSnapshot(snapshot: Version, succeeds: bool, ghost s: System, ghost byThread: bool)
      requires Shows(s) && Enabled(s, WriteStep(byThread, succeeds)) && PendingOf(s, byThread) == Some(snapshot)
      modifies this`disk
      ensures Shows(Apply(s, WriteStep(byThread, succeeds)))
    {
      if succeeds {
        disk := snapshot;
      }
    }

    /** A whole flush with nothing in between. */
    method FlushToDisk(metrics: Version, succeeds: bool, ghost s: System, ghost byThread: bool)
      requires Shows(s) && metrics == s.metrics && Enabled(s, SnapshotStep(byThread))
      modifies this
      ensures var taken := Apply(s, SnapshotStep(byThread));
        Shows(if PendingOf(taken, byThread).Some? then Apply(taken, WriteStep(byThread, succeeds)) else taken)
    {
      var snapshot := TakeSnapshot(metrics, s, byThread);
      if snapshot.Some? {
        WriteSnapshot(snapshot.value, succeeds, Apply(s, SnapshotStep(byThread)), byThread);
      }
    }
  }

  function SnapshotStep(byThread: bool): Step {
    if byThread then ThreadSnapshot else MainSnapshot
  }

  function WriteStep(byThread: bool, ok: bool): Step {
    if byThread then ThreadWrite(ok) else MainWrite(ok)
  }

  function PendingOf(s: System, byThread: bool): Option<Version> {
    if byThread then s.threadPending else s.mainPending
  }
}
