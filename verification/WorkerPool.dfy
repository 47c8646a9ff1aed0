/**
 Every interleaving of the acceptor and the workers of memory/mem9/embed-service/main.c.
 A step is one critical section, or one event between two of them.  Connections are
 numbered, so that a file descriptor that is reused counts as a new one.
 */
module WorkerPool {
  import opened WorkQueue

  datatype Worker =
    | Looking            // about to hold the mutex and test the loop condition of queue_pop
    | Sleeping           // in pthread_cond_wait
    | Handling(fd: Fd)   // in handle_connection
    | Exited

  datatype Pool = Pool(
    queue: seq<Fd>, shutdown: bool, workers: seq<Worker>,
    accepted: seq<Fd>, rejected: seq<Fd>,   // what the accept loop did
    pushed: seq<Fd>, taken: seq<Fd>,        // what went through the queue, in order
    handled: seq<Fd>)                       // connections closed by a worker

  datatype Step =
    | Accept(fd: Fd, gotMemory: bool, wake: nat)   // `wake` is the sleeper the signal picks
    | Shutdown
    | Look(w: nat)
    | Spurious(w: nat)
    | Finish(w: nat)

  ghost predicate Initial(p: Pool) {
    && p.queue == [] && !p.shutdown && |p.workers| > 0
    && (forall i | 0 <= i < |p.workers| :: p.workers[i] == Looking)
    && p.accepted == p.rejected == p.pushed == p.taken == p.handled == []
  }

  predicate Asleep(ws: seq<Worker>, w: nat) {
    w < |ws| && ws[w] == Sleeping
  }

  predicate SomeAsleep(ws: seq<Worker>) {
    exists w :: 0 <= w < |ws| && ws[w] == Sleeping
  }

  /** The signal wakes a sleeper if there is one. */
  ghost predicate Enabled(p: Pool, s: Step) {
    match s
    case Accept(_, gotMemory, wake) =>
      !p.shutdown && (Admits(p.queue, gotMemory) && SomeAsleep(p.workers) ==> Asleep(p.workers, wake))
    case Shutdown => !p.shutdown
    case Look(w) => w < |p.workers| && p.workers[w] == Looking
    case Spurious(w) => Asleep(p.workers, w)
    case Finish(w) => w < |p.workers| && p.workers[w].Handling?
  }

  function WakeOne(ws: seq<Worker>, w: nat): seq<Worker> {
    if Asleep(ws, w) then ws[w := Looking] else ws
  }

  function WakeAll(ws: seq<Worker>): (r: seq<Worker>)
    ensures |r| == |ws|
    ensures forall i | 0 <= i < |ws| :: r[i] == if ws[i] == Sleeping then Looking else ws[i]
  {
    seq(|ws|, i requires 0 <= i < |ws| => if ws[i] == Sleeping then Looking else ws[i])
  }

  ghost function Apply(p: Pool, s: Step): Pool
    requires Enabled(p, s)
  {
    match s
    case Accept(fd, gotMemory, wake) =>
      if Admits(p.queue, gotMemory) then
        p.(accepted := p.accepted + [fd], pushed := p.pushed + [fd],
           queue := AfterPush(p.queue, fd, gotMemory), workers := WakeOne(p.workers, wake))
      else
        p.(accepted := p.accepted + [fd], rejected := p.rejected + [fd])
    case Shutdown => p.(shutdown := true, workers := WakeAll(p.workers))
    case Look(w) =>
      (match PopVerdict(p.queue, p.shutdown)
       case Wait => p.(workers := p.workers[w := Sleeping])
       case Exit => p.(workers := p.workers[w := Exited])
       case Take(fd) =>
         p.(workers := p.workers[w := Handling(fd)], queue := AfterPop(p.queue), taken := p.taken + [fd]))
    case Spurious(w) => p.(workers := p.workers[w := Looking])
    case Finish(w) => p.(workers := p.workers[w := Looking], handled := p.handled + [p.workers[w].fd])
  }

  ghost predicate IsRun(p: Pool, steps: seq<Step>, q: Pool)
    decreases |steps|
  {
    if steps == [] then p == q
    else Enabled(p, steps[0]) && IsRun(Apply(p, steps[0]), steps[1..], q)
  }

  // ---------------------------------------------------------------------------
  // What every step keeps
  // ---------------------------------------------------------------------------

  function CountLooking(ws: seq<Worker>): nat {
    if ws == [] then 0 else LookingOne(ws[0]) + CountLooking(ws[1..])
  }

  /** How many workers hold connection c. */
  function HeldCount(ws: seq<Worker>, c: Fd): nat {
    if ws == [] then 0 else HoldsOne(ws[0], c) + HeldCount(ws[1..], c)
  }

  function Times(s: seq<Fd>, c: Fd): nat {
    multiset(s)[c]
  }

  /** Every accepted connection is rejected, queued, held or handled - once for each time
      it was accepted. */
  ghost predicate Accounted(p: Pool) {
    forall c :: AccountedFor(p, c)
  }

  ghost predicate AccountedFor(p: Pool, c: Fd) {
    Times(p.accepted, c)
    == Times(p.rejected, c) + Times(p.queue, c) + HeldCount(p.workers, c) + Times(p.handled, c)
  }

  /** While somebody sleeps, at least as many workers are on their way to the queue as
      there are connections in it: no wake-up is lost. */
  ghost predicate NoLostWakeup(p: Pool) {
    SomeAsleep(p.workers) ==> CountLooking(p.workers) >= |p.queue|
  }

  ghost predicate Inv(p: Pool) {
    && |p.workers| > 0
    && |p.queue| <= MAX_QUEUE_DEPTH
    && p.pushed == p.taken + p.queue
    && Accounted(p)
    && NoLostWakeup(p)
    && (p.shutdown ==> !SomeAsleep(p.workers))
    && (forall w | 0 <= w < |p.workers| && p.workers[w] == Exited :: p.shutdown && p.queue == [])
  }

  function LookingOne(x: Worker): nat {
    if x == Looking then 1 else 0
  }

  function HoldsOne(x: Worker, c: Fd): nat {
    if x == Handling(c) then 1 else 0
  }

  lemma {:induction false} CountUpdated(ws: seq<Worker>, w: nat, x: Worker)
    requires w < |ws|
    ensures CountLooking(ws[w := x]) + LookingOne(ws[w]) == CountLooking(ws) + LookingOne(x)
  {
    if w == 0 {
      assert ws[w := x][1..] == ws[1..];
    } else {
      assert ws[w := x][1..] == ws[1..][w - 1 := x];
      CountUpdated(ws[1..], w - 1, x);
    }
  }

  lemma {:induction false} HeldUpdated(ws: seq<Worker>, w: nat, x: Worker, c: Fd)
    requires w < |ws|
    ensures HeldCount(ws[w := x], c) + HoldsOne(ws[w], c) == HeldCount(ws, c) + HoldsOne(x, c)
  {
    if w == 0 {
      assert ws[w := x][1..] == ws[1..];
    } else {
      assert ws[w := x][1..] == ws[1..][w - 1 := x];
      HeldUpdated(ws[1..], w - 1, x, c);
    }
  }

  lemma AsleepUpdated(ws: seq<Worker>, w: nat, x: Worker)
    requires w < |ws| && x != Sleeping
    ensures SomeAsleep(ws[w := x]) ==> SomeAsleep(ws)
  {
    var us := ws[w := x];
    if SomeAsleep(us) {
      var v :| 0 <= v < |us| && us[v] == Sleeping;
      assert ws[v] == Sleeping;
    }
  }

  lemma {:induction false} WakingKeepsHeld(ws: seq<Worker>, c: Fd)
    ensures HeldCount(WakeAll(ws), c) == HeldCount(ws, c)
  {
    if ws != [] {
      assert WakeAll(ws)[1..] == WakeAll(ws[1..]);
      WakingKeepsHeld(ws[1..], c);
    }
  }

  lemma {:induction false} NobodyHolds(ws: seq<Worker>, c: Fd)
    requires forall w | 0 <= w < |ws| :: !ws[w].Handling?
    ensures HeldCount(ws, c) == 0
  {
    if ws != [] {
      NobodyHolds(ws[1..], c);
    }
  }

  lemma PushOne(s: seq<Fd>, fd: Fd, c: Fd)
    ensures Times(s + [fd], c) == Times(s, c) + if c == fd then 1 else 0
  {
  }

  lemma TakeOne(s: seq<Fd>, c: Fd)
    requires s != []
    ensures Times(s, c) == Times(s[1..], c) + if c == s[0] then 1 else 0
  {
    assert s == [s[0]] + s[1..];
  }

  lemma AcceptKeepsAccount(p: Pool, fd: Fd, gotMemory: bool, wake: nat, c: Fd)
    requires Enabled(p, Accept(fd, gotMemory, wake)) && AccountedFor(p, c)
    ensures AccountedFor(Apply(p, Accept(fd, gotMemory, wake)), c)
  {
    PushOne(p.accepted, fd, c);
    if Admits(p.queue, gotMemory) {
      PushOne(p.queue, fd, c);
      if Asleep(p.workers, wake) {
        HeldUpdated(p.workers, wake, Looking, c);
      }
    } else {
      PushOne(p.rejected, fd, c);
    }
  }

  lemma LookKeepsAccount(p: Pool, w: nat, c: Fd)
    requires Enabled(p, Look(w)) && AccountedFor(p, c)
    ensures AccountedFor(Apply(p, Look(w)), c)
  {
    HeldUpdated(p.workers, w, Apply(p, Look(w)).workers[w], c);
    if p.queue != [] {
      TakeOne(p.queue, c);
    }
  }

  lemma FinishKeepsAccount(p: Pool, w: nat, c: Fd)
    requires Enabled(p, Finish(w)) && AccountedFor(p, c)
    ensures AccountedFor(Apply(p, Finish(w)), c)
  {
    HeldUpdated(p.workers, w, Looking, c);
    PushOne(p.handled, p.workers[w].fd, c);
  }

  lemma StepKeepsAccount(p: Pool, s: Step, c: Fd)
    requires Enabled(p, s) && AccountedFor(p, c)
    ensures AccountedFor(Apply(p, s), c)
  {
    match s
    case Accept(fd, gotMemory, wake) => AcceptKeepsAccount(p, fd, gotMemory, wake, c);
    case Shutdown => WakingKeepsHeld(p.workers, c);
    case Look(w) => LookKeepsAccount(p, w, c);
    case Spurious(w) => HeldUpdated(p.workers, w, Looking, c);
    case Finish(w) => FinishKeepsAccount(p, w, c);
  }

  lemma StepKeepsWakeups(p: Pool, s: Step)
    requires Enabled(p, s) && NoLostWakeup(p) && (p.shutdown ==> !SomeAsleep(p.workers))
    ensures NoLostWakeup(Apply(p, s)) && (Apply(p, s).shutdown ==> !SomeAsleep(Apply(p, s).workers))
  {
    match s
    case Accept(fd, gotMemory, wake) =>
      if Asleep(p.workers, wake) {
        CountUpdated(p.workers, wake, Looking);
        AsleepUpdated(p.workers, wake, Looking);
      }
    case Shutdown =>
    case Look(w) =>
      var x := Apply(p, s).workers[w];
      CountUpdated(p.workers, w, x);
      if x != Sleeping {
        AsleepUpdated(p.workers, w, x);
      }
    case Spurious(w) =>
      CountUpdated(p.workers, w, Looking);
    case Finish(w) =>
      CountUpdated(p.workers, w, Looking);
      AsleepUpdated(p.workers, w, Looking);
  }

  lemma StepKeepsInv(p: Pool, s: Step)
    requires Inv(p) && Enabled(p, s)
    ensures Inv(Apply(p, s))
  {
    forall c
      ensures AccountedFor(Apply(p, s), c)
    {
      StepKeepsAccount(p, s, c);
    }
    StepKeepsWakeups(p, s);
    StepKeepsFifo(p, s);
  }

  lemma StepKeepsFifo(p: Pool, s: Step)
    requires Enabled(p, s) && p.pushed == p.taken + p.queue
    ensures Apply(p, s).pushed == Apply(p, s).taken + Apply(p, s).queue
  {
    if s.Accept? && Admits(p.queue, s.gotMemory) {
      assert p.pushed + [s.fd] == p.taken + (p.queue + [s.fd]);
    } else if s.Look? && p.queue != [] {
      assert p.queue == [p.queue[0]] + p.queue[1..];
      assert p.taken + p.queue == (p.taken + [p.queue[0]]) + p.queue[1..];
    }
  }

  /** Safety over every run of the server. */
  lemma {:induction false} RunKeepsInv(p: Pool, steps: seq<Step>, q: Pool)
    requires Inv(p) && IsRun(p, steps, q)
    ensures Inv(q)
    decreases |steps|
  {
    if steps != [] {
      StepKeepsInv(p, steps[0]);
      RunKeepsInv(Apply(p, steps[0]), steps[1..], q);
    }
  }

  lemma InitialInv(p: Pool)
    requires Initial(p)
    ensures Inv(p)
  {
    forall c
      ensures AccountedFor(p, c)
    {
      NobodyHolds(p.workers, c);
    }
  }

  /** From start-up, in every interleaving: the queue is a bounded FIFO, every accepted
      connection is accounted for, and a waiting connection never meets a sleeping crew. */
  lemma EveryRunIsSafe(p: Pool, steps: seq<Step>, q: Pool)
    requires Initial(p) && IsRun(p, steps, q)
    ensures |q.queue| <= MAX_QUEUE_DEPTH
    ensures q.pushed == q.taken + q.queue
    ensures Accounted(q)
    ensures q.queue != [] ==> exists w :: 0 <= w < |q.workers| && q.workers[w] != Sleeping && q.workers[w] != Exited
    ensures SomeAsleep(q.workers) ==> CountLooking(q.workers) >= |q.queue|
  {
    InitialInv(p);
    RunKeepsInv(p, steps, q);
    if q.queue != [] {
      if forall w | 0 <= w < |q.workers| :: q.workers[w] == Sleeping {
        assert q.workers[0] == Sleeping;
        NoneLooking(q.workers);
      }
    }
  }

  lemma {:induction false} NoneLooking(ws: seq<Worker>)
    requires forall w | 0 <= w < |ws| :: ws[w] != Looking
    ensures CountLooking(ws) == 0
  {
    if ws != [] {
      NoneLooking(ws[1..]);
    }
  }

  // ---------------------------------------------------------------------------
  // The queue is as large as promised
  // ---------------------------------------------------------------------------

  /** A connection is turned away if and only if there is no memory for it or 32 others are
      waiting; otherwise it waits behind them. */
  lemma RejectedIff(p: Pool, fd: Fd, gotMemory: bool, wake: nat)
    requires Inv(p) && Enabled(p, Accept(fd, gotMemory, wake))
    ensures var q := Apply(p, Accept(fd, gotMemory, wake));
      if !gotMemory || |p.queue| == 32 then q.queue == p.queue && q.rejected == p.rejected + [fd]
      else q.queue == p.queue + [fd] && q.rejected == p.rejected
  {
  }

  /** Up to 32 connections can wait with none turned away. */
  lemma QueueFills(p: Pool, n: nat) returns (steps: seq<Step>, q: Pool)
    requires Initial(p) && n <= 32
    ensures IsRun(p, steps, q) && |q.queue| == |q.accepted| == n && q.rejected == []
  {
    steps, q := Fill(p, n);
  }

  lemma {:induction false} Fill(p: Pool, n: nat) returns (steps: seq<Step>, q: Pool)
    requires !p.shutdown && !SomeAsleep(p.workers) && |p.queue| + n <= 32
    ensures IsRun(p, steps, q) && q.rejected == p.rejected
    ensures |q.queue| == |p.queue| + n && |q.accepted| == |p.accepted| + n
    decreases n
  {
    if n == 0 {
      return [], p;
    }
    var step := Accept(n, true, 0);
    var rest;
    rest, q := Fill(Apply(p, step), n - 1);
    steps := [step] + rest;
    assert steps[1..] == rest;
  }

  // ---------------------------------------------------------------------------
  // Shutdown drains the queue
  // ---------------------------------------------------------------------------

  ghost predicate AllExited(p: Pool) {
    forall w | 0 <= w < |p.workers| :: p.workers[w] == Exited
  }

  /** Once all workers are joined nothing is left for queue_destroy, and every connection
      was either turned away or handled. */
  lemma JoinedMeansDrained(p: Pool, steps: seq<Step>, q: Pool)
    requires Initial(p) && IsRun(p, steps, q) && AllExited(q)
    ensures q.shutdown && q.queue == [] && q.taken == q.pushed
    ensures forall c :: Times(q.accepted, c) == Times(q.rejected, c) + Times(q.handled, c)
  {
    InitialInv(p);
    RunKeepsInv(p, steps, q);
    assert q.workers[0] == Exited;
    forall c
      ensures Times(q.accepted, c) == Times(q.rejected, c) + Times(q.handled, c)
    {
      NobodyHolds(q.workers, c);
      assert AccountedFor(q, c);
    }
    assert q.taken + [] == q.taken;
  }

  /** Work left after shutdown. */
  function Remaining(p: Pool): nat {
    2 * |p.queue| + WorkLeft(p.workers)
  }

  function WorkLeft(ws: seq<Worker>): nat {
    if ws == [] then 0
    else (match ws[0] case Looking => 1 case Handling(_) => 2 case Sleeping => 0 case Exited => 0) + WorkLeft(ws[1..])
  }

  lemma {:induction false} WorkUpdated(ws: seq<Worker>, w: nat, x: Worker)
    requires w < |ws|
    ensures WorkLeft(ws[w := x]) + WorkLeft([ws[w]]) == WorkLeft(ws) + WorkLeft([x])
  {
    if w == 0 {
      assert ws[w := x][1..] == ws[1..];
    } else {
      assert ws[w := x][1..] == ws[1..][w - 1 := x];
      WorkUpdated(ws[1..], w - 1, x);
    }
  }

  /** After shutdown every step gets closer to the end, so the joins return. */
  lemma {:induction false} ShutdownTerminates(p: Pool, steps: seq<Step>, q: Pool)
    requires Inv(p) && p.shutdown && IsRun(p, steps, q)
    ensures |steps| + Remaining(q) <= Remaining(p)
    decreases |steps|
  {
    if steps != [] {
      var next := Apply(p, steps[0]);
      StepKeepsInv(p, steps[0]);
      StepUsesWork(p, steps[0]);
      ShutdownTerminates(next, steps[1..], q);
    }
  }

  lemma StepUsesWork(p: Pool, s: Step)
    requires p.shutdown && !SomeAsleep(p.workers) && Enabled(p, s)
    ensures Apply(p, s).shutdown && Remaining(Apply(p, s)) < Remaining(p)
  {
    match s
    case Look(w) => WorkUpdated(p.workers, w, Apply(p, s).workers[w]);
    case Finish(w) => WorkUpdated(p.workers, w, Looking);
    case Spurious(w) =>
  }

  /** ... and as long as a worker has not exited, some step can be taken. */
  lemma ShutdownNeverStuck(p: Pool)
    requires Inv(p) && p.shutdown && !AllExited(p)
    ensures exists s :: Enabled(p, s)
  {
    var w :| 0 <= w < |p.workers| && p.workers[w] != Exited;
    if p.workers[w] == Looking {
      assert Enabled(p, Look(w));
    } else {
      assert p.workers[w] != Sleeping;
      assert Enabled(p, Finish(w));
    }
  }
}
