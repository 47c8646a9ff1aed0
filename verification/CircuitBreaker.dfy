/**
 The circuit breaker of core/orchestrator/loop.py.  Times are seconds of the monotonic
 clock, taken as reals.
 */
module CircuitBreaker {

  datatype State = CLOSED | OPEN | HALF_OPEN

  datatype Breaker = Breaker(
    threshold: int, initial: real,
    state: State, failures: nat, duration: real, openSince: real)

  const MAX_DURATION := 3600.0

  function Min(a: real, b: real): real {
    if a < b then a else b
  }

  function Fresh(threshold: int, initial: real): Breaker {
    Breaker(threshold, initial, CLOSED, 0, initial, 0.0)
  }

  predicate Allows(b: Breaker, now: real) {
    b.state == OPEN ==> now - b.openSince >= b.duration
  }

  function AfterAllow(b: Breaker, now: real): Breaker {
    if b.state == OPEN && Allows(b, now) then b.(state := HALF_OPEN) else b
  }

  function AfterSuccess(b: Breaker): Breaker {
    b.(state := CLOSED, failures := 0, duration := b.initial)
  }

  function AfterFailure(b: Breaker, now: real): Breaker {
    var counted := b.(failures := b.failures + 1);
    if b.state == HALF_OPEN then
      counted.(duration := Min(b.duration * 2.0, MAX_DURATION), state := OPEN, openSince := now)
    else if b.state == CLOSED && counted.failures >= b.threshold then
      counted.(state := OPEN, openSince := now)
    else counted
  }

  class CircuitBreaker {
    const failureThreshold: int
    const initialOpenDuration: real
    var state: State
    var consecutiveFailures: nat
    var openDuration: real
    var openSince: real

    constructor (failureThreshold: int, openDuration: real)
      ensures View() == Fresh(failureThreshold, openDuration)
    {
      this.failureThreshold, this.initialOpenDuration := failureThreshold, openDuration;
      this.openDuration := openDuration;
      state, consecutiveFailures, openSince := CLOSED, 0, 0.0;
    }

    function View(): Breaker
      reads this
    {
      Breaker(failureThreshold, initialOpenDuration, state, consecutiveFailures, openDuration, openSince)
    }

    method AllowRequest(now: real) returns (allowed: bool)
      modifies this
      ensures allowed == Allows(old(View()), now)
      ensures View() == AfterAllow(old(View()), now)
    {
      if state == CLOSED {
        return true;
      }
      if state == OPEN {
        var elapsed := now - openSince;
        if elapsed >= openDuration {
          Transition(HALF_OPEN, now);
          return true;
        }
        return false;
      }
      return true;
    }

    method RecordSuccess(now: real)
      modifies this
      ensures View() == AfterSuccess(old(View()))
    {
      if state != CLOSED {
        Transition(CLOSED, now);
      }
      consecutiveFailures := 0;
      openDuration := initialOpenDuration;
    }

    method RecordFailure(now: real)
      modifies this
      ensures View() == AfterFailure(old(View()), now)
    {
      consecutiveFailures := consecutiveFailures + 1;
      if state == HALF_OPEN {
        openDuration := Min(openDuration * 2.0, MAX_DURATION);
        Transition(OPEN, now);
      } else if state == CLOSED {
        if consecutiveFailures >= failureThreshold {
          Transition(OPEN, now);
        }
      }
    }

    method Transition(newState: State, now: real)
      modifies this`state, this`openSince
      ensures state == newState && openSince == if newState == OPEN then now else old(openSince)
    {
      state := newState;
      if newState == OPEN {
        openSince := now;
      }
    }
  }

  // ---------------------------------------------------------------------------
  // Runs: the orchestrator asks, and reports the outcome of each admitted call
  // ---------------------------------------------------------------------------

  datatype Event =
    | Refused(asked: real)
    | Failed(asked: real, at: real)
    | Succeeded(asked: real, at: real)

  function EndOf(e: Event): real {
    match e
    case Refused(asked) => asked
    case Failed(_, at) => at
    case Succeeded(_, at) => at
  }

  /** The breaker lets the event happen. */
  predicate Possible(b: Breaker, e: Event) {
    && (Allows(b, e.asked) <==> !e.Refused?)
    && e.asked <= EndOf(e)
  }

  function Next(b: Breaker, e: Event): Breaker {
    var asked := AfterAllow(b, e.asked);
    match e
    case Refused(_) => asked
    case Failed(_, at) => AfterFailure(asked, at)
    case Succeeded(_, _) => AfterSuccess(asked)
  }

  function After(b: Breaker, run: seq<Event>): Breaker {
    if run == [] then b else Next(After(b, run[..|run| - 1]), run[|run| - 1])
  }

  ghost predicate IsRun(b: Breaker, run: seq<Event>) {
    forall i | 0 <= i < |run| :: Possible(After(b, run[..i]), run[i])
  }

  /** What has happened since the last successful call. */
  function Since(run: seq<Event>): seq<Event> {
    if run == [] || run[|run| - 1].Succeeded? then []
    else Since(run[..|run| - 1]) + [run[|run| - 1]]
  }

  function FailedCalls(run: seq<Event>): nat {
    if run == [] then 0
    else FailedCalls(run[..|run| - 1]) + (if run[|run| - 1].Failed? then 1 else 0)
  }

  /** When the n-th failed call of the run was recorded. */
  function FailureTime(run: seq<Event>, n: nat): real
    requires 1 <= n <= FailedCalls(run)
  {
    var last := run[|run| - 1];
    if last.Failed? && FailedCalls(run) == n then last.at else FailureTime(run[..|run| - 1], n)
  }

  function Pow2(n: nat): real {
    if n == 0 then 1.0 else 2.0 * Pow2(n - 1)
  }

  /** The cooldown after k failed probes. */
  function Cooldown(initial: real, k: nat): real {
    Min(initial * Pow2(k), MAX_DURATION)
  }

  function CooldownSum(initial: real, m: nat): real {
    if m == 0 then 0.0 else CooldownSum(initial, m - 1) + Cooldown(initial, m - 1)
  }

  lemma {:induction false} Pow2AtLeastOne(n: nat)
    ensures Pow2(n) >= 1.0
  {
    if n > 0 { Pow2AtLeastOne(n - 1); }
  }

  /** Doubling and capping once more is the next cooldown. */
  lemma CooldownDoubles(initial: real, k: nat)
    requires initial > 0.0
    ensures Min(Cooldown(initial, k) * 2.0, MAX_DURATION) == Cooldown(initial, k + 1)
  {
    Pow2AtLeastOne(k);
    var x := initial * Pow2(k);
    assert initial * Pow2(k + 1) == 2.0 * x by {
      assert initial * (2.0 * Pow2(k)) == 2.0 * (initial * Pow2(k));
    }
  }

  /** The cooldowns of the gateway's breaker. */
  lemma GatewayCooldowns(k: nat)
    ensures Cooldown(300.0, k) == if k < 4 then [300.0, 600.0, 1200.0, 2400.0][k] else 3600.0
  {
    if k >= 4 {
      Pow2AtLeastOne(k - 4);
      assert Pow2(k) == 2.0 * Pow2(k - 1) == 4.0 * Pow2(k - 2) == 8.0 * Pow2(k - 3) == 16.0 * Pow2(k - 4);
    } else {
      assert Pow2(0) == 1.0 && Pow2(1) == 2.0 && Pow2(2) == 4.0 && Pow2(3) == 8.0;
    }
  }

  lemma PrefixRun(b: Breaker, run: seq<Event>)
    requires IsRun(b, run) && run != []
    ensures IsRun(b, run[..|run| - 1])
    ensures Possible(After(b, run[..|run| - 1]), run[|run| - 1])
    ensures forall e | e in run[..|run| - 1] :: e in run
  {
    var init := run[..|run| - 1];
    forall i | 0 <= i < |init|
      ensures Possible(After(b, init[..i]), init[i])
    {
      assert init[..i] == run[..i];
    }
  }

  /** What a breaker looks like after n consecutive failed calls. */
  predicate AfterFailures(b: Breaker, initial: real, threshold: nat, n: nat) {
    && b.initial == initial && b.threshold == threshold && b.failures == n
    && (if n < threshold then b.state == CLOSED && b.duration == initial
        else b.state == OPEN && b.duration == Cooldown(initial, n - threshold))
  }

  lemma SinceGrows(run: seq<Event>)
    requires run != [] && !run[|run| - 1].Succeeded?
    ensures var init, last := Since(run[..|run| - 1]), run[|run| - 1];
      && Since(run) == init + [last]
      && FailedCalls(Since(run)) == FailedCalls(init) + (if last.Failed? then 1 else 0)
      && forall n | 1 <= n <= FailedCalls(init) :: FailureTime(Since(run), n) == FailureTime(init, n)
  {
    var since := Since(run);
    assert since[..|since| - 1] == Since(run[..|run| - 1]);
  }

  /** Over every run, with k failed probes since the last success: the cooldown is
      min(initial * 2^k, 3600), the breaker is never left half open, and the open period
      started with the last failure. */
  lemma {:induction false} CooldownOverRuns(initial: real, threshold: nat, run: seq<Event>)
    requires 0.0 < initial <= MAX_DURATION && threshold > 0
    requires IsRun(Fresh(threshold, initial), run)
    ensures var b := After(Fresh(threshold, initial), run);
      var n := FailedCalls(Since(run));
      && AfterFailures(b, initial, threshold, n)
      && (n >= threshold ==> b.openSince == FailureTime(Since(run), n))
    decreases |run|
  {
    if run != [] {
      var init, last := run[..|run| - 1], run[|run| - 1];
      PrefixRun(Fresh(threshold, initial), run);
      CooldownOverRuns(initial, threshold, init);
      if !last.Succeeded? {
        SinceGrows(run);
        if last.Failed? {
          FailureCounts(After(Fresh(threshold, initial), init), initial, threshold, FailedCalls(Since(init)), last);
        }
      }
    }
  }

  lemma FailureCounts(b: Breaker, initial: real, threshold: nat, n: nat, e: Event)
    requires 0.0 < initial <= MAX_DURATION && threshold > 0
    requires AfterFailures(b, initial, threshold, n) && e.Failed? && Possible(b, e)
    ensures AfterFailures(Next(b, e), initial, threshold, n + 1)
    ensures n + 1 >= threshold ==> Next(b, e).openSince == e.at
  {
    if n >= threshold {
      CooldownDoubles(initial, n - threshold);
    } else if n + 1 == threshold {
      assert Cooldown(initial, 0) == initial;
    }
  }

  /** Over every run: the n-th failure since the last success comes at least the sum of the
      first n - threshold cooldowns after the one that opened the breaker. */
  lemma {:induction false} FailuresAreSpaced(initial: real, threshold: nat, run: seq<Event>)
    requires 0.0 < initial <= MAX_DURATION && threshold > 0
    requires IsRun(Fresh(threshold, initial), run)
    requires FailedCalls(Since(run)) >= threshold
    ensures var n := FailedCalls(Since(run));
      FailureTime(Since(run), n) >= FailureTime(Since(run), threshold) + CooldownSum(initial, n - threshold)
    decreases |run|
  {
    var init, last := run[..|run| - 1], run[|run| - 1];
    var n := FailedCalls(Since(run));
    PrefixRun(Fresh(threshold, initial), run);
    SinceGrows(run);
    if n > threshold || !last.Failed? {
      FailuresAreSpaced(initial, threshold, init);
      if last.Failed? {
        CooldownOverRuns(initial, threshold, init);
        var b := After(Fresh(threshold, initial), init);
        assert b.state == OPEN && Allows(b, last.asked);
        assert last.at >= b.openSince + Cooldown(initial, n - 1 - threshold);
      }
    }
  }

  /** Over every run: while the breaker is open a call is not even asked for before the
      cooldown since the last failure has passed. */
  lemma OneCallPerOpenPeriod(initial: real, threshold: nat, run: seq<Event>)
    requires 0.0 < initial <= MAX_DURATION && threshold > 0 && run != []
    requires IsRun(Fresh(threshold, initial), run)
    requires FailedCalls(Since(run[..|run| - 1])) >= threshold && !run[|run| - 1].Refused?
    ensures var before := Since(run[..|run| - 1]);
      var n := FailedCalls(before);
      run[|run| - 1].asked >= FailureTime(before, n) + Cooldown(initial, n - threshold)
  {
    PrefixRun(Fresh(threshold, initial), run);
    CooldownOverRuns(initial, threshold, run[..|run| - 1]);
  }

  /** Whatever its outcome, that call ends the open period: it closes the breaker, or a new
      period starts when it is recorded. */
  lemma CallEndsOpenPeriod(initial: real, threshold: nat, run: seq<Event>)
    requires 0.0 < initial <= MAX_DURATION && threshold > 0 && run != []
    requires IsRun(Fresh(threshold, initial), run)
    requires FailedCalls(Since(run[..|run| - 1])) >= threshold && !run[|run| - 1].Refused?
    ensures var b := After(Fresh(threshold, initial), run);
      var last := run[|run| - 1];
      if last.Succeeded? then b.state == CLOSED else b.state == OPEN && b.openSince == last.at
  {
    PrefixRun(Fresh(threshold, initial), run);
    CooldownOverRuns(initial, threshold, run[..|run| - 1]);
  }

  /** Equal except for an opening time that nothing reads any more. */
  predicate Alike(a: Breaker, b: Breaker) {
    && a.(openSince := 0.0) == b.(openSince := 0.0)
    && (a.state == OPEN ==> a.openSince == b.openSince)
  }

  lemma {:induction false} AlikeRuns(a: Breaker, b: Breaker, run: seq<Event>)
    requires Alike(a, b)
    ensures Alike(After(a, run), After(b, run))
    decreases |run|
  {
    if run != [] {
      AlikeRuns(a, b, run[..|run| - 1]);
    }
  }

  /** A success starts over: the runs that may follow it are the runs of a new breaker, and
      lead to the same states. */
  lemma SuccessStartsOver(b: Breaker, e: Event, run: seq<Event>)
    requires e.Succeeded?
    ensures IsRun(Next(b, e), run) <==> IsRun(Fresh(b.threshold, b.initial), run)
    ensures Alike(After(Next(b, e), run), After(Fresh(b.threshold, b.initial), run))
  {
    var c, fresh' := Next(b, e), Fresh(b.threshold, b.initial);
    forall i | 0 <= i <= |run|
      ensures Alike(After(c, run[..i]), After(fresh', run[..i]))
    {
      AlikeRuns(c, fresh', run[..i]);
    }
    assert run[..|run|] == run;
    assert forall i | 0 <= i < |run| :: Possible(After(c, run[..i]), run[i]) <==> Possible(After(fresh', run[..i]), run[i]);
  }
}
