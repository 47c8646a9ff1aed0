/**
 The main loop of core/orchestrator/loop.py.  One turn of the loop is a step whose inputs -
 clock readings, the PAUSE file, signals and the gateway's reply - are arbitrary.
 Idle mode is switched off in the source and has no part here.
 */
module OrchestratorLoop {
  import opened CircuitBreaker

  datatype Config = Config(totalHours: real, budget: real, maxIterations: int, maxFailures: int)

  datatype Classification = Success | AgentFailure | InfraError

  /** How the gateway call of a turn ends. */
  datatype Reply =
    | Answered(prompt: int, completion: int, classification: Classification, skipped: bool)
    | RaisedLate(prompt: int, completion: int)   // an exception after the usage was booked
    | RaisedEarly

  /** Everything a turn reads from its environment; times are seconds since the start. */
  datatype Turn = Turn(
    shutdown: bool, head: real, guardAt: real, paused: bool,
    shutdownInBackoff: bool, asked: real, reply: Reply, at: real)

  datatype Loop = Loop(
    iteration: int, failures: int,
    successful: int, failed: int, skipped: int,
    promptTokens: int, completionTokens: int, spend: real,
    breaker: Breaker)

  datatype Progress = Stopped | Waited | Tripped | Called

  const HOUR := 3600.0

  function Cost(prompt: int, completion: int): real {
    prompt as real / 1000000.0 * 0.12 + completion as real / 1000000.0 * 0.75
  }

  function Spent(s: Loop): real {
    Cost(s.promptTokens, s.completionTokens)
  }

  /** _check_budget_guard */
  predicate GuardStops(cfg: Config, s: Loop, at: real) {
    var hours := at / HOUR;
    hours >= 0.1 && (Spent(s) > cfg.budget || Spent(s) * (cfg.totalHours / hours) > cfg.budget)
  }

  function Book(s: Loop, prompt: int, completion: int): Loop {
    s.(promptTokens := s.promptTokens + prompt, completionTokens := s.completionTokens + completion,
       spend := s.spend + Cost(prompt, completion))
  }

  function InfraFailure(s: Loop, at: real): Loop {
    s.(failures := s.failures + 1, failed := s.failed + 1, breaker := AfterFailure(s.breaker, at))
  }

  function AfterReply(s: Loop, r: Reply, at: real): Loop {
    match r
    case Answered(prompt, completion, classification, skipped) =>
      var b := Book(s, prompt, completion);
      (match classification
       case Success =>
         b.(failures := 0, successful := b.successful + 1, breaker := AfterSuccess(b.breaker),
            skipped := b.skipped + (if skipped then 1 else 0))
       case AgentFailure => b.(failed := b.failed + 1, breaker := AfterSuccess(b.breaker))
       case InfraError => InfraFailure(b, at))
    case RaisedLate(prompt, completion) => InfraFailure(Book(s, prompt, completion), at)
    case RaisedEarly => InfraFailure(s, at)
  }

  /** What one turn of the loop comes to. */
  function ProgressOf(cfg: Config, s: Loop, t: Turn): Progress {
    if t.shutdown || t.head / HOUR >= cfg.totalHours then Stopped
    else if GuardStops(cfg, s, t.guardAt) then Stopped
    else if cfg.maxIterations > 0 && s.iteration >= cfg.maxIterations then Stopped
    else if t.paused || s.failures >= cfg.maxFailures then Waited
    else if s.failures > 0 && t.shutdownInBackoff then Stopped
    else if Allows(s.breaker, t.asked) then Called
    else Tripped
  }

  function Step(cfg: Config, s: Loop, t: Turn): Loop {
    match ProgressOf(cfg, s, t)
    case Stopped | Waited => s
    case Tripped => s.(iteration := s.iteration + 1, failures := s.failures + 1, failed := s.failed + 1)
    case Called =>
      AfterReply(s.(iteration := s.iteration + 1, breaker := AfterAllow(s.breaker, t.asked)), t.reply, t.at)
  }

  /** The loop state after a run of turns; a stop ends it. */
  function Run(cfg: Config, s: Loop, turns: seq<Turn>): Loop
    decreases |turns|
  {
    if turns == [] || ProgressOf(cfg, s, turns[0]).Stopped? then s
    else Run(cfg, Step(cfg, s, turns[0]), turns[1..])
  }

  class Orchestrator {
    const cfg: Config
    const breaker: CircuitBreaker
    var iteration: int
    var consecutiveFailures: int
    var successful: int
    var failed: int
    var skipped: int
    var promptTokens: int
    var completionTokens: int
    var cumulativeSpend: real

    constructor (cfg: Config, breaker: CircuitBreaker)
      ensures this.cfg == cfg && this.breaker == breaker
      ensures View() == Loop(0, 0, 0, 0, 0, 0, 0, 0.0, breaker.View())
    {
      this.cfg, this.breaker := cfg, breaker;
      iteration, consecutiveFailures := 0, 0;
      successful, failed, skipped := 0, 0, 0;
      promptTokens, completionTokens, cumulativeSpend := 0, 0, 0.0;
    }

    function View(): Loop
      reads this, breaker
    {
      Loop(iteration, consecutiveFailures, successful, failed, skipped,
           promptTokens, completionTokens, cumulativeSpend, breaker.View())
    }

    method CheckBudgetGuard(now: real) returns (triggered: bool)
      ensures triggered == GuardStops(cfg, View(), now)
    {
      var hoursElapsed := now / HOUR;
      if hoursElapsed < 0.1 {
        return false;
      }
      var currentSpend := Cost(promptTokens, completionTokens);
      if currentSpend > cfg.budget {
        return true;
      }
      var projected := currentSpend * (cfg.totalHours / hoursElapsed);
      return projected > cfg.budget;
    }

    /** One turn of the while loop. */
    method RunTurn(t: Turn) returns (p: Progress)
      modifies this, breaker
      ensures p == ProgressOf(cfg, old(View()), t)
      ensures View() == Step(cfg, old(View()), t)
    {
      if t.shutdown || t.head / HOUR >= cfg.totalHours {
        return Stopped;
      }
      var guarded := CheckBudgetGuard(t.guardAt);
      if guarded {
        return Stopped;
      }
      if cfg.maxIterations > 0 && iteration >= cfg.maxIterations {
        return Stopped;
      }
      if t.paused {
        return Waited;
      }
      if consecutiveFailures >= cfg.maxFailures {
        return Waited;  // emergency pause: the PAUSE file is created
      }
      if consecutiveFailures > 0 && t.shutdownInBackoff {
        return Stopped;
      }
      iteration := iteration + 1;
      var allowed := breaker.AllowRequest(t.asked);
      if !allowed {
        consecutiveFailures := consecutiveFailures + 1;
        failed := failed + 1;
        return Tripped;
      }
      CallGateway(t.reply, t.at);
      return Called;
    }

    /** The try block around the gateway call, and its handlers. */
    method CallGateway(reply: Reply, at: real)
      modifies this, breaker
      ensures View() == AfterReply(old(View()), reply, at)
    {
      if !reply.RaisedEarly? {
        promptTokens := promptTokens + reply.prompt;
        completionTokens := completionTokens + reply.completion;
        cumulativeSpend := cumulativeSpend + Cost(reply.prompt, reply.completion);
      }
      if reply.Answered? && reply.classification == Success {
        consecutiveFailures := 0;
        successful := successful + 1;
        breaker.RecordSuccess(at);
        if reply.skipped {
          skipped := skipped + 1;
        }
      } else if reply.Answered? && reply.classification == AgentFailure {
        failed := failed + 1;
        breaker.RecordSuccess(at);
      } else {
        consecutiveFailures := consecutiveFailures + 1;
        failed := failed + 1;
        breaker.RecordFailure(at);
      }
    }
  }

  // ---------------------------------------------------------------------------
  // The books balance
  // ---------------------------------------------------------------------------

  lemma CostAdds(p: int, c: int, p': int, c': int)
    ensures Cost(p + p', c + c') == Cost(p, c) + Cost(p', c')
  {
  }

  /** What is the same in two states that a run connects. */
  ghost predicate BooksAgree(s: Loop, u: Loop) {
    && u.successful + u.failed - u.iteration == s.successful + s.failed - s.iteration
    && u.spend - Spent(u) == s.spend - Spent(s)
    && (s.skipped <= s.successful ==> u.skipped <= u.successful)
    && (s.breaker.failures <= s.failures ==> u.breaker.failures <= u.failures)
    && s.iteration <= u.iteration
  }

  lemma StepKeepsBooks(cfg: Config, s: Loop, t: Turn)
    ensures BooksAgree(s, Step(cfg, s, t))
  {
    if ProgressOf(cfg, s, t).Called? && !t.reply.RaisedEarly? {
      CostAdds(s.promptTokens, s.completionTokens, t.reply.prompt, t.reply.completion);
    }
  }

  /** Over every run: one iteration is one success or one failure, skipped iterations are
      successes, the cumulative spend is the price of the tokens counted, and the breaker
      never counts more failures than the loop. */
  lemma {:induction false} RunKeepsBooks(cfg: Config, s: Loop, turns: seq<Turn>)
    ensures BooksAgree(s, Run(cfg, s, turns))
    decreases |turns|
  {
    if turns != [] && !ProgressOf(cfg, s, turns[0]).Stopped? {
      StepKeepsBooks(cfg, s, turns[0]);
      RunKeepsBooks(cfg, Step(cfg, s, turns[0]), turns[1..]);
    }
  }

  /** Once the failure count has reached its maximum nothing changes any more: no further
      gateway call, whatever happens to the PAUSE file. */
  lemma {:induction false} EmergencyPauseIsFinal(cfg: Config, s: Loop, turns: seq<Turn>)
    requires s.failures >= cfg.maxFailures
    ensures Run(cfg, s, turns) == s
    ensures forall t | t in turns :: !ProgressOf(cfg, s, t).Called?
    decreases |turns|
  {
    if turns != [] && !ProgressOf(cfg, s, turns[0]).Stopped? {
      EmergencyPauseIsFinal(cfg, s, turns[1..]);
    }
  }

  // ---------------------------------------------------------------------------
  // The budget
  // ---------------------------------------------------------------------------

  /** The share of the budget that is released by time `at`. */
  function Released(cfg: Config, at: real): real
    requires cfg.totalHours > 0.0
  {
    cfg.budget * Min(1.0, at / HOUR / cfg.totalHours)
  }

  /** The guard lets a turn pass exactly when it is in the first six minutes or the spend
      is within the released share of the budget. */
  lemma GuardPassesIff(cfg: Config, s: Loop, at: real)
    requires cfg.totalHours > 0.0
    ensures !GuardStops(cfg, s, at) <==>
      at / HOUR < 0.1 || (Spent(s) <= cfg.budget && Spent(s) <= cfg.budget * (at / HOUR / cfg.totalHours))
  {
    var h := at / HOUR;
    if h >= 0.1 {
      ProjectionIff(Spent(s), cfg.totalHours, h, cfg.budget);
    }
  }

  /** Projecting the spend to the whole runtime is comparing it with the elapsed share. */
  lemma ProjectionIff(spent: real, total: real, h: real, budget: real)
    requires total > 0.0 && h > 0.0
    ensures spent * (total / h) <= budget <==> spent <= budget * (h / total)
  {
    var q, r := total / h, h / total;
    assert q > 0.0 && r > 0.0 && q * r == 1.0 by {
      assert q * h == total;
      assert r * total == h;
      assert q * r * total == q * h;
    }
    if spent * q <= budget {
      Scale(spent * q, budget, r);
      assert spent * q * r == spent * (q * r);
    }
    if spent <= budget * r {
      Scale(spent, budget * r, q);
      assert budget * r * q == budget * (q * r);
    }
  }

  lemma Scale(a: real, b: real, k: real)
    requires a <= b && k > 0.0
    ensures a * k <= b * k
  {
  }

  /** A call whose guard was read after the first six minutes starts within the released
      share of the budget, so the spend after it exceeds the budget at most by its cost. */
  lemma GuardedCallWithinBudget(cfg: Config, s: Loop, t: Turn)
    requires cfg.totalHours > 0.0
    requires ProgressOf(cfg, s, t).Called? && t.guardAt / HOUR >= 0.1
    ensures Spent(s) <= Released(cfg, t.guardAt)
    ensures Spent(Step(cfg, s, t)) <= cfg.budget + CostOf(t.reply)
    ensures t.head / HOUR < cfg.totalHours
  {
    GuardPassesIff(cfg, s, t.guardAt);
    if !t.reply.RaisedEarly? {
      CostAdds(s.promptTokens, s.completionTokens, t.reply.prompt, t.reply.completion);
    }
  }

  function CostOf(r: Reply): real {
    match r
    case Answered(p, c, _, _) => Cost(p, c)
    case RaisedLate(p, c) => Cost(p, c)
    case RaisedEarly => 0.0
  }

  function Max(a: real, b: real): real {
    if a < b then b else a
  }

  /** How many turns at the start read the guard in the first six minutes. */
  function EarlyTurns(turns: seq<Turn>): (k: nat)
    ensures k <= |turns|
  {
    if turns == [] || turns[0].guardAt / HOUR >= 0.1 then 0 else 1 + EarlyTurns(turns[1..])
  }

  /** The guard is read at later and later times. */
  ghost predicate ClockRuns(turns: seq<Turn>) {
    forall i, j | 0 <= i < j < |turns| :: turns[i].guardAt <= turns[j].guardAt
  }

  /** Over every run whose later calls cost at most `most`: from the first turn with an
      active guard on, the spend ends at most one call above the budget, or where the early
      turns have left it. */
  lemma {:induction false} RunWithinBudget(cfg: Config, s: Loop, turns: seq<Turn>, most: real)
    requires cfg.totalHours > 0.0 && most >= 0.0 && ClockRuns(turns)
    requires forall t | t in turns[EarlyTurns(turns)..] :: CostOf(t.reply) <= most
    ensures Spent(Run(cfg, s, turns)) <= Max(Spent(Run(cfg, s, turns[..EarlyTurns(turns)])), cfg.budget + most)
    decreases |turns|
  {
    var k := EarlyTurns(turns);
    if k == 0 {
      GuardStaysActive(turns);
      assert turns[0..] == turns;
      GuardedRunWithinBudget(cfg, s, turns, most);
    } else {
      var rest := turns[1..];
      assert turns[k..] == rest[k - 1..] && turns[..k][1..] == rest[..k - 1];
      if !ProgressOf(cfg, s, turns[0]).Stopped? {
        RunWithinBudget(cfg, Step(cfg, s, turns[0]), rest, most);
      }
    }
  }

  lemma GuardStaysActive(turns: seq<Turn>)
    requires ClockRuns(turns) && EarlyTurns(turns) == 0
    ensures forall t | t in turns :: t.guardAt / HOUR >= 0.1
  {
    forall t | t in turns
      ensures t.guardAt / HOUR >= 0.1
    {
      var i :| 0 <= i < |turns| && turns[i] == t;
      assert i > 0 ==> turns[0].guardAt <= turns[i].guardAt;
    }
  }

  /** A run whose guards are all active. */
  lemma {:induction false} GuardedRunWithinBudget(cfg: Config, s: Loop, turns: seq<Turn>, most: real)
    requires cfg.totalHours > 0.0 && most >= 0.0
    requires forall t | t in turns :: t.guardAt / HOUR >= 0.1 && CostOf(t.reply) <= most
    ensures Spent(Run(cfg, s, turns)) <= Max(Spent(s), cfg.budget + most)
    decreases |turns|
  {
    if turns != [] && !ProgressOf(cfg, s, turns[0]).Stopped? {
      var t := turns[0];
      assert t in turns;
      if ProgressOf(cfg, s, t).Called? {
        GuardedCallWithinBudget(cfg, s, t);
      }
      GuardedRunWithinBudget(cfg, Step(cfg, s, t), turns[1..], most);
    }
  }

  /** Nothing but the budget guard keeps the turn from its call. */
  predicate Unhindered(cfg: Config, s: Loop, t: Turn) {
    && !t.shutdown && t.head / HOUR < cfg.totalHours && !t.paused && (s.failures > 0 ==> !t.shutdownInBackoff)
    && (cfg.maxIterations > 0 ==> s.iteration < cfg.maxIterations) && s.failures < cfg.maxFailures
    && Allows(s.breaker, t.asked)
  }

  /** Exactly when a turn calls the gateway. */
  lemma CalledIff(cfg: Config, s: Loop, t: Turn)
    ensures ProgressOf(cfg, s, t).Called? <==> !GuardStops(cfg, s, t.guardAt) && Unhindered(cfg, s, t)
  {
  }

  /** A guard read in the first six minutes binds nothing: the call is made whatever has been
      spent, also when the backoff puts it behind the six minutes. */
  lemma EarlyGuardDoesNotBind(cfg: Config, s: Loop, t: Turn)
    requires Unhindered(cfg, s, t)
    ensures ProgressOf(cfg, s, t).Called? <==> t.guardAt / HOUR < 0.1 || !GuardStops(cfg, s, t.guardAt)
  {
  }

  /** Every call with these clock readings starts within the share of the budget that is
      released by time `at`. */
  ghost predicate CallsBounded(cfg: Config, head: real, guardAt: real, asked: real, at: real)
    requires cfg.totalHours > 0.0
  {
    forall s: Loop, t: Turn | CalledAt(cfg, s, t, head, guardAt, asked) :: Spent(s) <= Released(cfg, at)
  }

  predicate CalledAt(cfg: Config, s: Loop, t: Turn, head: real, guardAt: real, asked: real) {
    t.head == head && t.guardAt == guardAt && t.asked == asked && ProgressOf(cfg, s, t).Called?
  }

  /** The bound on calls - by the share released when the guard is read, or at any time up
      to the call itself - holds if and only if the guard is read after the first six
      minutes.  That the call starts after them is not enough. */
  lemma CallsBoundedIff(cfg: Config, head: real, guardAt: real, asked: real, at: real)
    requires 0.0 <= head <= guardAt <= at <= asked && head / HOUR < cfg.totalHours && cfg.maxFailures > 0
    requires cfg.budget >= 0.0 || at == guardAt
    ensures CallsBounded(cfg, head, guardAt, asked, at) <==> guardAt / HOUR >= 0.1
  {
    if guardAt / HOUR >= 0.1 {
      forall s: Loop, t: Turn | CalledAt(cfg, s, t, head, guardAt, asked)
        ensures Spent(s) <= Released(cfg, at)
      {
        GuardedCallWithinBudget(cfg, s, t);
        ReleasedGrows(cfg, guardAt, at);
      }
    } else {
      var tokens := TokensAbove(Released(cfg, at));
      var s := Loop(0, 0, 0, 0, 0, tokens, 0, 0.0, Fresh(5, 300.0));
      var t := Turn(false, head, guardAt, false, false, asked, RaisedEarly, asked);
      EarlyGuardDoesNotBind(cfg, s, t);
      assert CalledAt(cfg, s, t, head, guardAt, asked) && Spent(s) > Released(cfg, at);
    }
  }

  lemma ReleasedGrows(cfg: Config, a: real, b: real)
    requires cfg.totalHours > 0.0 && a <= b && (cfg.budget >= 0.0 || a == b)
    ensures Released(cfg, a) <= Released(cfg, b)
  {
    var x, y := Min(1.0, a / HOUR / cfg.totalHours), Min(1.0, b / HOUR / cfg.totalHours);
    Quotients(a / HOUR, b / HOUR, cfg.totalHours);
    assert x <= y;
    if cfg.budget > 0.0 {
      Scale(x, y, cfg.budget);
    }
  }

  lemma Quotients(a: real, b: real, d: real)
    requires a <= b && d > 0.0
    ensures a / d <= b / d
  {
    assert (b - a) / d >= 0.0;
    assert b / d == a / d + (b - a) / d;
  }

  /** Enough tokens to have spent more than x. */
  lemma TokensAbove(x: real) returns (tokens: nat)
    ensures Cost(tokens, 0) > x
  {
    var y := Max(x, 0.0) * 10000000.0;
    tokens := y.Floor + 1;
    assert tokens as real > y;
    assert Cost(tokens, 0) == tokens as real / 1000000.0 * 0.12;
  }

  // ---------------------------------------------------------------------------
  // What a run adds up to
  // ---------------------------------------------------------------------------

  /** One iteration: a call with its reply, or a call that the breaker refused. */
  datatype Iteration = Refusal | Call(reply: Reply)

  function IterationsOf(cfg: Config, s: Loop, turns: seq<Turn>): seq<Iteration>
    decreases |turns|
  {
    if turns == [] || ProgressOf(cfg, s, turns[0]).Stopped? then []
    else IterationOf(cfg, s, turns[0]) + IterationsOf(cfg, Step(cfg, s, turns[0]), turns[1..])
  }

  function IterationOf(cfg: Config, s: Loop, t: Turn): seq<Iteration> {
    match ProgressOf(cfg, s, t)
    case Called => [Call(t.reply)]
    case Tripped => [Refusal]
    case _ => []
  }

  predicate Succeeds(i: Iteration) {
    i.Call? && i.reply.Answered? && i.reply.classification.Success?
  }

  /** The agent itself reports a failure. */
  predicate ReportsFailure(i: Iteration) {
    i.Call? && i.reply.Answered? && i.reply.classification.AgentFailure?
  }

  function Successes(its: seq<Iteration>): nat {
    if its == [] then 0 else (if Succeeds(its[0]) then 1 else 0) + Successes(its[1..])
  }

  function Skips(its: seq<Iteration>): nat {
    if its == [] then 0 else (if Succeeds(its[0]) && its[0].reply.skipped then 1 else 0) + Skips(its[1..])
  }

  function PromptTokens(its: seq<Iteration>): int {
    if its == [] then 0
    else (if its[0].Refusal? || its[0].reply.RaisedEarly? then 0 else its[0].reply.prompt) + PromptTokens(its[1..])
  }

  function CompletionTokens(its: seq<Iteration>): int {
    if its == [] then 0
    else (if its[0].Refusal? || its[0].reply.RaisedEarly? then 0 else its[0].reply.completion) + CompletionTokens(its[1..])
  }

  /** Failures in a row, when there were n before: a success ends the row, a failure that the
      agent reports is left out, and all else - refusals, infrastructure errors and
      exceptions - counts. */
  function InARow(n: int, its: seq<Iteration>): int
    decreases |its|
  {
    if its == [] then n
    else InARow(if Succeeds(its[0]) then 0 else if ReportsFailure(its[0]) then n else n + 1, its[1..])
  }

  lemma StepTally(cfg: Config, s: Loop, t: Turn)
    ensures var u, its := Step(cfg, s, t), IterationOf(cfg, s, t);
      && u.iteration == s.iteration + |its|
      && u.successful == s.successful + Successes(its) && u.skipped == s.skipped + Skips(its)
      && u.failed == s.failed + |its| - Successes(its) && u.failures == InARow(s.failures, its)
      && u.promptTokens == s.promptTokens + PromptTokens(its)
      && u.completionTokens == s.completionTokens + CompletionTokens(its)
  {
    var its := IterationOf(cfg, s, t);
    if its != [] {
      var rest := its[1..];
      assert Successes(rest) == 0 && Skips(rest) == 0 && PromptTokens(rest) == 0 && CompletionTokens(rest) == 0;
      assert InARow(0, rest) == 0 && InARow(s.failures, rest) == s.failures && InARow(s.failures + 1, rest) == s.failures + 1;
    }
  }

  lemma TallyCons(x: seq<Iteration>, rest: seq<Iteration>, n: int)
    requires |x| <= 1
    ensures Successes(x + rest) == Successes(x) + Successes(rest) && Skips(x + rest) == Skips(x) + Skips(rest)
    ensures PromptTokens(x + rest) == PromptTokens(x) + PromptTokens(rest)
    ensures CompletionTokens(x + rest) == CompletionTokens(x) + CompletionTokens(rest)
    ensures InARow(n, x + rest) == InARow(InARow(n, x), rest)
  {
    if x == [] {
      assert x + rest == rest;
    } else {
      assert (x + rest)[1..] == rest && x[1..] == [];
    }
  }

  /** Over every run: the counters are the tally of its iterations. */
  lemma {:induction false} RunTally(cfg: Config, s: Loop, turns: seq<Turn>)
    ensures var u, its := Run(cfg, s, turns), IterationsOf(cfg, s, turns);
      && u.iteration == s.iteration + |its|
      && u.successful == s.successful + Successes(its) && u.skipped == s.skipped + Skips(its)
      && u.failed == s.failed + |its| - Successes(its) && u.failures == InARow(s.failures, its)
      && u.promptTokens == s.promptTokens + PromptTokens(its)
      && u.completionTokens == s.completionTokens + CompletionTokens(its)
    decreases |turns|
  {
    if turns != [] && !ProgressOf(cfg, s, turns[0]).Stopped? {
      var next := Step(cfg, s, turns[0]);
      StepTally(cfg, s, turns[0]);
      RunTally(cfg, next, turns[1..]);
      TallyCons(IterationOf(cfg, s, turns[0]), IterationsOf(cfg, next, turns[1..]), s.failures);
    }
  }

  /** 12 cents for a million prompt tokens and 75 for a million completion tokens. */
  lemma Prices(prompt: int, completion: int)
    ensures Cost(prompt, completion) * 100_000_000.0 == (12 * prompt + 75 * completion) as real
  {
  }

  /** While the PAUSE file exists nothing happens. */
  lemma {:induction false} PausedRunIsIdle(cfg: Config, s: Loop, turns: seq<Turn>)
    requires forall t | t in turns :: t.paused
    ensures Run(cfg, s, turns) == s && IterationsOf(cfg, s, turns) == []
    decreases |turns|
  {
    if turns != [] && !ProgressOf(cfg, s, turns[0]).Stopped? {
      assert turns[0] in turns;
      PausedRunIsIdle(cfg, s, turns[1..]);
    }
  }

  /** A turn that comes after a shutdown request, at or behind the end of the runtime, or with
      the iterations used up ends the run. */
  lemma TurnEndsRun(cfg: Config, s: Loop, turns: seq<Turn>)
    requires turns != [] && (turns[0].shutdown || turns[0].head / 3600.0 >= cfg.totalHours
                             || (cfg.maxIterations > 0 && s.iteration >= cfg.maxIterations))
    ensures Run(cfg, s, turns) == s
  {
  }

  lemma {:induction false} IterationsAreLimited(cfg: Config, s: Loop, turns: seq<Turn>)
    requires 0 < cfg.maxIterations && s.iteration <= cfg.maxIterations
    ensures Run(cfg, s, turns).iteration <= cfg.maxIterations
    decreases |turns|
  {
    if turns != [] && !ProgressOf(cfg, s, turns[0]).Stopped? {
      IterationsAreLimited(cfg, Step(cfg, s, turns[0]), turns[1..]);
    }
  }

  // ---------------------------------------------------------------------------
  // The loop drives the breaker by the breaker's own rules
  // ---------------------------------------------------------------------------

  /** The breaker event of a turn, if it gets as far as asking. */
  function EventOf(cfg: Config, s: Loop, t: Turn): seq<Event> {
    match ProgressOf(cfg, s, t)
    case Stopped | Waited => []
    case Tripped => [Event.Refused(t.asked)]
    case Called =>
      if t.reply.Answered? && t.reply.classification != InfraError then [Succeeded(t.asked, t.at)]
      else [Failed(t.asked, t.at)]
  }

  function EventsOf(cfg: Config, s: Loop, turns: seq<Turn>): seq<Event>
    decreases |turns|
  {
    if turns == [] || ProgressOf(cfg, s, turns[0]).Stopped? then []
    else EventOf(cfg, s, turns[0]) + EventsOf(cfg, Step(cfg, s, turns[0]), turns[1..])
  }

  predicate Timed(turns: seq<Turn>) {
    forall t | t in turns :: t.asked <= t.at
  }

  /** Every run of the loop is a run of the breaker. */
  lemma {:induction false} LoopIsBreakerRun(cfg: Config, s: Loop, turns: seq<Turn>)
    requires Timed(turns)
    ensures IsRun(s.breaker, EventsOf(cfg, s, turns))
    ensures After(s.breaker, EventsOf(cfg, s, turns)) == Run(cfg, s, turns).breaker
    decreases |turns|
  {
    if turns != [] && !ProgressOf(cfg, s, turns[0]).Stopped? {
      var next := Step(cfg, s, turns[0]);
      assert turns[0] in turns;
      LoopIsBreakerRun(cfg, next, turns[1..]);
      TurnIsBreakerEvent(cfg, s, turns[0], EventsOf(cfg, next, turns[1..]));
    }
  }

  lemma TurnIsBreakerEvent(cfg: Config, s: Loop, t: Turn, rest: seq<Event>)
    requires t.asked <= t.at && IsRun(Step(cfg, s, t).breaker, rest)
    ensures IsRun(s.breaker, EventOf(cfg, s, t) + rest)
    ensures After(s.breaker, EventOf(cfg, s, t) + rest) == After(Step(cfg, s, t).breaker, rest)
  {
    var now := EventOf(cfg, s, t);
    if now == [] {
      assert now + rest == rest;
    } else {
      TurnEvent(cfg, s, t);
      RunPrepended(s.breaker, now[0], rest);
      assert now == [now[0]];
    }
  }

  lemma TurnEvent(cfg: Config, s: Loop, t: Turn)
    requires t.asked <= t.at && EventOf(cfg, s, t) != []
    ensures var e := EventOf(cfg, s, t)[0];
      EventOf(cfg, s, t) == [e] && Possible(s.breaker, e) && Next(s.breaker, e) == Step(cfg, s, t).breaker
  {
  }

  lemma {:induction false} AfterPrepended(b: Breaker, e: Event, run: seq<Event>)
    ensures After(b, [e] + run) == After(Next(b, e), run)
    decreases |run|
  {
    var whole := [e] + run;
    if run == [] {
      assert whole[..0] == [] && whole[0] == e;
      assert After(b, []) == b;
    } else {
      assert whole[..|whole| - 1] == [e] + run[..|run| - 1];
      AfterPrepended(b, e, run[..|run| - 1]);
    }
  }

  lemma RunPrepended(b: Breaker, e: Event, run: seq<Event>)
    requires Possible(b, e) && IsRun(Next(b, e), run)
    ensures IsRun(b, [e] + run) && After(b, [e] + run) == After(Next(b, e), run)
  {
    AfterPrepended(b, e, run);
    var whole := [e] + run;
    forall i | 0 <= i < |whole|
      ensures Possible(After(b, whole[..i]), whole[i])
    {
      if i == 0 {
        assert whole[..0] == [];
      } else {
        assert whole[..i] == [e] + run[..i - 1];
        AfterPrepended(b, e, run[..i - 1]);
      }
    }
  }

  // ---------------------------------------------------------------------------
  // What the breaker theorems say about the loop
  // ---------------------------------------------------------------------------

  /** The loop when the process starts: a new breaker and no failures, whatever counts a
      prior run has left. */
  predicate Starts(s: Loop, initial: real, threshold: nat) {
    s.breaker == Fresh(threshold, initial) && s.failures == 0 && 0.0 < initial <= MAX_DURATION && threshold > 0
  }

  /** What the breaker has seen since the last call that reached the agent. */
  function Recent(cfg: Config, s: Loop, turns: seq<Turn>): seq<Event> {
    Since(EventsOf(cfg, s, turns))
  }

  /** At every point of every run the breaker is a function of the failed calls since the
      last one that reached the agent. */
  lemma BreakerOfLoop(cfg: Config, s: Loop, turns: seq<Turn>, initial: real, threshold: nat)
    requires Starts(s, initial, threshold) && Timed(turns)
    ensures var b := Run(cfg, s, turns).breaker;
      var n := FailedCalls(Recent(cfg, s, turns));
      && AfterFailures(b, initial, threshold, n)
      && (n >= threshold ==> b.openSince == FailureTime(Recent(cfg, s, turns), n))
  {
    LoopIsBreakerRun(cfg, s, turns);
    CooldownOverRuns(initial, threshold, EventsOf(cfg, s, turns));
  }

  /** A turn that asks the breaker makes its call if and only if fewer than `threshold` calls
      have failed in a row, or the cooldown since the last failure has passed. */
  lemma LoopCallsIff(cfg: Config, s: Loop, turns: seq<Turn>, t: Turn, initial: real, threshold: nat)
    requires Starts(s, initial, threshold) && Timed(turns)
    requires ProgressOf(cfg, Run(cfg, s, turns), t).Called? || ProgressOf(cfg, Run(cfg, s, turns), t).Tripped?
    ensures var recent := Recent(cfg, s, turns);
      var n := FailedCalls(recent);
      ProgressOf(cfg, Run(cfg, s, turns), t).Called?
      <==> n < threshold || t.asked - FailureTime(recent, n) >= Cooldown(initial, n - threshold)
  {
    BreakerOfLoop(cfg, s, turns, initial, threshold);
  }

  lemma LoopFailuresAreSpaced(cfg: Config, s: Loop, turns: seq<Turn>, initial: real, threshold: nat)
    requires Starts(s, initial, threshold) && Timed(turns)
    requires FailedCalls(Recent(cfg, s, turns)) >= threshold
    ensures var recent := Recent(cfg, s, turns);
      var n := FailedCalls(recent);
      FailureTime(recent, n) >= FailureTime(recent, threshold) + CooldownSum(initial, n - threshold)
  {
    LoopIsBreakerRun(cfg, s, turns);
    FailuresAreSpaced(initial, threshold, EventsOf(cfg, s, turns));
  }

  // The breaker and the emergency pause

  lemma {:induction false} FailuresStayBelowMax(cfg: Config, s: Loop, turns: seq<Turn>)
    requires s.failures <= cfg.maxFailures && cfg.maxFailures >= 0
    ensures Run(cfg, s, turns).failures <= cfg.maxFailures
    decreases |turns|
  {
    if turns != [] && !ProgressOf(cfg, s, turns[0]).Stopped? {
      FailuresStayBelowMax(cfg, Step(cfg, s, turns[0]), turns[1..]);
    }
  }

  /** The emergency pause bounds the probes: refused turns count as failures too, so at most
      maxFailures - threshold probes fail in a row. */
  lemma ProbesAreBounded(cfg: Config, s: Loop, turns: seq<Turn>, initial: real, threshold: nat)
    requires Starts(s, initial, threshold) && Timed(turns) && cfg.maxFailures >= 0
    ensures FailedCalls(Recent(cfg, s, turns)) <= Run(cfg, s, turns).failures <= cfg.maxFailures
  {
    BreakerOfLoop(cfg, s, turns, initial, threshold);
    RunKeepsBooks(cfg, s, turns);
    FailuresStayBelowMax(cfg, s, turns);
  }

  /** After these turns the breaker refuses this one. */
  predicate TripsAfter(cfg: Config, s: Loop, turns: seq<Turn>, t: Turn) {
    Timed(turns) && ProgressOf(cfg, Run(cfg, s, turns), t).Tripped?
  }

  /** The breaker can refuse a call at all if and only if its threshold is below the limit of
      the emergency pause. */
  lemma BreakerTripsIff(cfg: Config, s: Loop, initial: real, threshold: nat)
    requires Starts(s, initial, threshold) && cfg.totalHours > 0.0 && cfg.maxIterations <= 0
    ensures (exists turns, t :: TripsAfter(cfg, s, turns, t)) <==> threshold < cfg.maxFailures
  {
    if turns, t :| TripsAfter(cfg, s, turns, t) {
      BreakerOfLoop(cfg, s, turns, initial, threshold);
      RunKeepsBooks(cfg, s, turns);
    }
    if threshold < cfg.maxFailures {
      FailingTurnsOpen(cfg, s, initial, threshold, threshold);
      assert TripsAfter(cfg, s, FailingTurns(threshold), FAILING_TURN);
    }
  }

  const FAILING_TURN := Turn(false, 0.0, 0.0, false, false, 0.0, RaisedEarly, 0.0)

  function FailingTurns(k: nat): (r: seq<Turn>)
    ensures Timed(r)
  {
    if k == 0 then [] else [FAILING_TURN] + FailingTurns(k - 1)
  }

  lemma {:induction false} FailingTurnsOpen(cfg: Config, s: Loop, initial: real, threshold: nat, k: nat)
    requires cfg.totalHours > 0.0 && cfg.maxIterations <= 0 && threshold < cfg.maxFailures
    requires 0 < k <= threshold && s.failures == threshold - k && s.breaker == Fresh(threshold, initial).(failures := threshold - k)
    ensures var u := Run(cfg, s, FailingTurns(k));
      u.failures == threshold && u.breaker.state == OPEN && u.breaker.openSince == 0.0 && u.breaker.duration == initial
    decreases k
  {
    var next := Step(cfg, s, FAILING_TURN);
    assert FailingTurns(k)[1..] == FailingTurns(k - 1);
    if k == 1 {
      assert Run(cfg, next, []) == next;
    } else {
      FailingTurnsOpen(cfg, next, initial, threshold, k - 1);
    }
  }
}
