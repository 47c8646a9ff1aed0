/**
 Restart bookkeeping of the daemon (archive/project-mytool/cmd/tent/daemon.go).  Times are
 nanoseconds on one monotonic clock; a sandbox without an entry has Go's zero time.
 */
module RestartLimiter {
  import opened Wrappers

  type Time = int

  /** Ten minutes. */
  const COOLDOWN := 600_000_000_000

  /** time.Since saturates; the zero time is further back than any Duration. */
  const MAX_DURATION := 0x7FFF_FFFF_FFFF_FFFF

  datatype Policy = Always | OnFailure | NoRestart
  datatype Status = Stopped | Failed | OtherStatus
  datatype Sandbox = Sandbox(name: string, policy: Policy, status: Status)
  datatype Config = Config(maxRestarts: int, restartDelay: int)

  /** DaemonState without its mutex. */
  datatype Counters = Counters(count: map<string, nat>, last: map<string, Time>)

  function CountOf(c: Counters, name: string): nat {
    if name in c.count then c.count[name] else 0
  }

  function LastOf(c: Counters, name: string): Option<Time> {
    if name in c.last then Some(c.last[name]) else None
  }

  function Since(last: Option<Time>, now: Time): int {
    match last
    case None => MAX_DURATION
    case Some(t) => now - t
  }

  predicate ShouldRestart(sb: Sandbox) {
    match sb.policy
    case Always => sb.status.Stopped? || sb.status.Failed?
    case OnFailure => sb.status.Failed?
    case NoRestart => false
  }

  /** Where the monitoring loop stands with the sandbox it is looking at; the mutex is
      free between these points. */
  datatype Phase =
    | Idle
    | Looked(name: string, count: nat, last: Option<Time>)
    | Admitted(name: string, count: nat, last: Option<Time>)
    | Starting(name: string, count: nat, started: Time)

  function Look(c: Counters, sb: Sandbox): Phase {
    if ShouldRestart(sb) then Looked(sb.name, CountOf(c, sb.name), LastOf(c, sb.name)) else Idle
  }

  predicate AtLimit(cfg: Config, count: nat) {
    cfg.maxRestarts > 0 && count >= cfg.maxRestarts
  }

  function CheckLimit(cfg: Config, c: Counters, p: Phase, now: Time): (Counters, Phase)
    requires p.Looked?
  {
    if !AtLimit(cfg, p.count) then (c, Admitted(p.name, p.count, p.last))
    else if Since(p.last, now) > COOLDOWN then (ResetCount(c, p.name), Admitted(p.name, 0, p.last))
    else (c, Idle)
  }

  function CheckDelay(cfg: Config, p: Phase, now: Time): Phase
    requires p.Admitted?
  {
    if p.last.Some? && Since(p.last, now) < cfg.restartDelay then Idle else Starting(p.name, p.count, now)
  }

  function ResetCount(c: Counters, name: string): Counters {
    c.(count := c.count[name := 0])
  }

  function Record(c: Counters, name: string, count: nat, now: Time): Counters {
    Counters(c.count[name := count + 1], c.last[name := now])
  }

  function Forget(c: Counters, name: string): Counters {
    Counters(c.count - {name}, c.last - {name})
  }

  /** The monitoring loop's treatment of one sandbox when no request comes in between. */
  function Visit(cfg: Config, c: Counters, sb: Sandbox, t: Clock): Counters {
    var p := Look(c, sb);
    if p.Idle? then c
    else
      var (c', q) := CheckLimit(cfg, c, p, t.limitAt);
      if q.Idle? then c'
      else
        var r := CheckDelay(cfg, q, t.delayAt);
        if r.Idle? then c' else Record(c', r.name, r.count, t.recordAt)
  }

  /** The three clock readings of one visit. */
  datatype Clock = Clock(limitAt: Time, delayAt: Time, recordAt: Time)

  function Visits(cfg: Config, c: Counters, sandboxes: seq<Sandbox>, clocks: seq<Clock>): Counters
    requires |clocks| == |sandboxes|
    decreases |sandboxes|
  {
    if sandboxes == [] then c
    else
      var n := |sandboxes| - 1;
      Visit(cfg, Visits(cfg, c, sandboxes[..n], clocks[..n]), sandboxes[n], clocks[n])
  }

  class DaemonState {
    var restartCount: map<string, nat>
    var lastRestart: map<string, Time>

    constructor ()
      ensures State() == Counters(map[], map[])
    {
      restartCount, lastRestart := map[], map[];
    }

    function State(): Counters
      reads this
    {
      Counters(restartCount, lastRestart)
    }

    /** monitorSandboxes: the sandboxes as listed, with the clock readings of each. */
    method MonitorSandboxes(cfg: Config, sandboxes: seq<Sandbox>, clocks: seq<Clock>)
      requires |clocks| == |sandboxes|
      modifies this
      ensures State() == Visits(cfg, old(State()), sandboxes, clocks)
    {
      var i := 0;
      while i < |sandboxes|
        invariant 0 <= i <= |sandboxes|
        invariant State() == Visits(cfg, old(State()), sandboxes[..i], clocks[..i])
      {
        assert sandboxes[..i + 1][..i] == sandboxes[..i] && clocks[..i + 1][..i] == clocks[..i];
        MonitorOne(cfg, sandboxes[i], clocks[i]);
        i := i + 1;
      }
      assert sandboxes[..i] == sandboxes && clocks[..i] == clocks;
    }

    method MonitorOne(cfg: Config, sb: Sandbox, t: Clock)
      modifies this
      ensures State() == Visit(cfg, old(State()), sb, t)
    {
      var shouldRestart := false;
      match sb.policy {
        case Always =>
          if sb.status == Stopped || sb.status == Failed { shouldRestart := true; }
        case OnFailure =>
          if sb.status == Failed { shouldRestart := true; }
        case NoRestart =>
      }
      if !shouldRestart {
        return;
      }
      var count := if sb.name in restartCount then restartCount[sb.name] else 0;
      var last := if sb.name in lastRestart then Some(lastRestart[sb.name]) else None;
      if cfg.maxRestarts > 0 && count >= cfg.maxRestarts {
        if Since(last, t.limitAt) > COOLDOWN {
          restartCount := restartCount[sb.name := 0];
          count := 0;
        } else {
          return;
        }
      }
      if last.Some? && Since(last, t.delayAt) < cfg.restartDelay {
        return;
      }
      restartCount := restartCount[sb.name := count + 1];
      lastRestart := lastRestart[sb.name := t.recordAt];
    }

    /** POST /v1/daemon/restart/name, before the sandbox is started. */
    method HandleRestart(name: string)
      modifies this
      ensures State() == if name == "" then old(State()) else ResetCount(old(State()), name)
    {
      if name == "" {
        return;
      }
      restartCount := restartCount[name := 0];
    }

    /** POST /v1/daemon/reset-restarts/name, or without a name for all. */
    method HandleReset(name: string)
      modifies this
      ensures State() == if name == "" then Counters(map[], map[]) else Forget(old(State()), name)
    {
      if name == "" {
        restartCount, lastRestart := map[], map[];
        return;
      }
      restartCount := restartCount - {name};
      lastRestart := lastRestart - {name};
    }
  }

  // ---------------------------------------------------------------------------
  // The daemon as a state machine: one monitoring loop, handlers at any moment
  // ---------------------------------------------------------------------------

  datatype System = System(c: Counters, phase: Phase, now: Time)

  datatype Event =
    | SeeSandbox(sb: Sandbox)
    | LimitCheck(at: Time)
    | DelayCheck(at: Time)
    | Recording(at: Time)
    | ApiRestart(name: string)
    | ApiReset(name: string)

  predicate Enabled(s: System, e: Event) {
    match e
    case SeeSandbox(_) => s.phase.Idle?
    case LimitCheck(at) => s.phase.Looked? && s.now <= at
    case DelayCheck(at) => s.phase.Admitted? && s.now <= at
    case Recording(at) => s.phase.Starting? && s.now <= at
    case ApiRestart(_) => true
    case ApiReset(_) => true
  }

  /** An event that cannot happen changes nothing. */
  function Step(cfg: Config, s: System, e: Event): System {
    if !Enabled(s, e) then s
    else
      match e
      case SeeSandbox(sb) => s.(phase := Look(s.c, sb))
      case LimitCheck(at) =>
        var (c, p) := CheckLimit(cfg, s.c, s.phase, at);
        System(c, p, at)
      case DelayCheck(at) => System(s.c, CheckDelay(cfg, s.phase, at), at)
      case Recording(at) => System(Record(s.c, s.phase.name, s.phase.count, at), Idle, at)
      case ApiRestart(name) => s.(c := if name == "" then s.c else ResetCount(s.c, name))
      case ApiReset(name) => s.(c := if name == "" then Counters(map[], map[]) else Forget(s.c, name))
  }

  /** What happened to one sandbox: automatic restart attempts, from the moment the delay
      check let it through to the moment it was recorded, and resets through the API. */
  datatype Entry = Attempt(started: Time, recorded: Time) | CountReset | Forgotten

  function Observe(n: string, s: System, e: Event, log: seq<Entry>): seq<Entry> {
    if !Enabled(s, e) then log
    else
      match e
      case Recording(at) => if s.phase.name == n then log + [Attempt(s.phase.started, at)] else log
      case ApiRestart(name) => if name == n && n != "" then log + [CountReset] else log
      case ApiReset(name) => if name == n || name == "" then log + [Forgotten] else log
      case _ => log
  }

  datatype Watched = Watched(s: System, log: seq<Entry>)

  /** The state and sandbox n's log after a run. */
  function Run(cfg: Config, n: string, start: Time, events: seq<Event>): Watched
    decreases |events|
  {
    if events == [] then Watched(System(Counters(map[], map[]), Idle, start), [])
    else
      var w := Run(cfg, n, start, events[..|events| - 1]);
      var e := events[|events| - 1];
      Watched(Step(cfg, w.s, e), Observe(n, w.s, e, w.log))
  }

  // ---------------------------------------------------------------------------
  // Reading a log
  // ---------------------------------------------------------------------------

  /** The last recorded attempt that has not been forgotten. */
  function LastSeen(log: seq<Entry>): Option<Time>
    decreases |log|
  {
    if log == [] then None
    else
      match log[|log| - 1]
      case Attempt(_, recorded) => Some(recorded)
      case CountReset => LastSeen(log[..|log| - 1])
      case Forgotten => None
  }

  /** The next attempt starts within the cooldown of this one. */
  predicate Close(a: Entry, b: Entry) {
    a.Attempt? && b.Attempt? && b.started - a.recorded <= COOLDOWN
  }

  /** How many attempts at the end of the log follow each other closely. */
  function Burst(log: seq<Entry>): nat
    decreases |log|
  {
    if log == [] || !log[|log| - 1].Attempt? then 0
    else if |log| >= 2 && Close(log[|log| - 2], log[|log| - 1]) then Burst(log[..|log| - 1]) + 1
    else 1
  }

  /** An attempt keeps the restart delay from the attempt seen last. */
  predicate Spaced(cfg: Config, log: seq<Entry>) {
    log != [] && log[|log| - 1].Attempt? && LastSeen(log[..|log| - 1]).Some? ==>
      log[|log| - 1].started - LastSeen(log[..|log| - 1]).value >= cfg.restartDelay
  }

  ghost predicate LogOk(cfg: Config, log: seq<Entry>) {
    forall k | 0 <= k <= |log| :: PrefixAt(cfg, log, k)
  }

  predicate PrefixAt(cfg: Config, log: seq<Entry>, k: nat)
    requires k <= |log|
  {
    PrefixOk(cfg, log[..k])
  }

  predicate PrefixOk(cfg: Config, log: seq<Entry>) {
    (cfg.maxRestarts > 0 ==> Burst(log) <= cfg.maxRestarts) && Spaced(cfg, log)
  }

  // ---------------------------------------------------------------------------
  // The invariant
  // ---------------------------------------------------------------------------

  /** A count that was read covers the burst, unless the burst is over. */
  predicate Covers(log: seq<Entry>, count: nat, now: Time) {
    Burst(log) > 0 ==> count >= Burst(log) || (LastSeen(log).Some? && now - LastSeen(log).value > COOLDOWN)
  }

  predicate PhaseOk(cfg: Config, n: string, s: System, log: seq<Entry>) {
    match s.phase
    case Idle => true
    case Looked(name, count, last) =>
      name == n ==> (LastSeen(log).Some? ==> last == LastSeen(log)) && Covers(log, count, s.now)
    case Admitted(name, count, last) =>
      name == n ==> (LastSeen(log).Some? ==> last == LastSeen(log)) && MayAttempt(cfg, log, count, s.now)
    case Starting(name, count, started) =>
      name == n ==>
        && started <= s.now
        && (LastSeen(log).Some? ==> started - LastSeen(log).value >= cfg.restartDelay)
        && MayAttempt(cfg, log, count, started)
  }

  predicate MayAttempt(cfg: Config, log: seq<Entry>, count: nat, now: Time) {
    Burst(log) > 0 ==>
      || (Burst(log) <= count && (cfg.maxRestarts > 0 ==> count < cfg.maxRestarts))
      || (LastSeen(log).Some? && now - LastSeen(log).value > COOLDOWN)
  }

  ghost predicate Inv(cfg: Config, n: string, s: System, log: seq<Entry>) {
    && LogOk(cfg, log)
    && LastOf(s.c, n) == LastSeen(log)
    && Covers(log, CountOf(s.c, n), s.now)
    && PhaseOk(cfg, n, s, log)
  }

  lemma LogGrows(cfg: Config, log: seq<Entry>, e: Entry)
    requires LogOk(cfg, log) && PrefixOk(cfg, log + [e])
    ensures LogOk(cfg, log + [e])
  {
    var l := log + [e];
    forall k | 0 <= k <= |l|
      ensures PrefixAt(cfg, l, k)
    {
      if k <= |log| {
        assert PrefixAt(cfg, log, k) && l[..k] == log[..k];
      } else {
        assert l[..k] == l;
      }
    }
  }

  lemma {:induction false} AttemptAppended(log: seq<Entry>, a: Entry)
    requires a.Attempt?
    ensures LastSeen(log + [a]) == Some(a.recorded)
    ensures Burst(log + [a]) == if log != [] && Close(log[|log| - 1], a) then Burst(log) + 1 else 1
  {
    var t := log + [a];
    assert t[|t| - 1] == a && t[..|t| - 1] == log;
    if log != [] {
      assert t[|t| - 2] == log[|log| - 1];
    }
  }

  lemma BurstEndsWithSeen(log: seq<Entry>)
    ensures log != [] && log[|log| - 1].Attempt? ==> Burst(log) > 0 && LastSeen(log) == Some(log[|log| - 1].recorded)
  {
  }

  lemma RecordingKeepsInv(cfg: Config, n: string, s: System, log: seq<Entry>, at: Time)
    requires Inv(cfg, n, s, log) && s.phase.Starting? && s.phase.name == n && s.now <= at
    ensures Inv(cfg, n, Step(cfg, s, Recording(at)), log + [Attempt(s.phase.started, at)])
  {
    var a := Attempt(s.phase.started, at);
    AttemptAppended(log, a);
    BurstEndsWithSeen(log);
    assert PrefixAt(cfg, log, |log|) && log[..|log|] == log;
    assert (log + [a])[..|log|] == log;
    assert PrefixOk(cfg, log + [a]);
    LogGrows(cfg, log, a);
  }

  /** An entry of the API ends the burst. */
  lemma ApiEntryAppended(cfg: Config, log: seq<Entry>, x: Entry)
    requires LogOk(cfg, log) && !x.Attempt?
    ensures LogOk(cfg, log + [x]) && Burst(log + [x]) == 0
    ensures LastSeen(log + [x]) == if x.CountReset? then LastSeen(log) else None
  {
    assert (log + [x])[..|log|] == log;
    LogGrows(cfg, log, x);
  }

  lemma ApiRestartKeepsInv(cfg: Config, n: string, s: System, log: seq<Entry>, name: string)
    requires Inv(cfg, n, s, log)
    ensures Inv(cfg, n, Step(cfg, s, ApiRestart(name)), Observe(n, s, ApiRestart(name), log))
  {
    ApiEntryAppended(cfg, log, CountReset);
  }

  lemma ApiResetKeepsInv(cfg: Config, n: string, s: System, log: seq<Entry>, name: string)
    requires Inv(cfg, n, s, log)
    ensures Inv(cfg, n, Step(cfg, s, ApiReset(name)), Observe(n, s, ApiReset(name), log))
  {
    ApiEntryAppended(cfg, log, Forgotten);
  }

  lemma StepKeepsInv(cfg: Config, n: string, s: System, log: seq<Entry>, e: Event)
    requires Inv(cfg, n, s, log)
    ensures Inv(cfg, n, Step(cfg, s, e), Observe(n, s, e, log))
  {
    if e.ApiRestart? {
      ApiRestartKeepsInv(cfg, n, s, log, e.name);
    } else if e.ApiReset? {
      ApiResetKeepsInv(cfg, n, s, log, e.name);
    } else if e.Recording? && Enabled(s, e) && s.phase.name == n {
      RecordingKeepsInv(cfg, n, s, log, e.at);
    }
  }

  lemma {:induction false} RunKeepsInv(cfg: Config, n: string, start: Time, events: seq<Event>)
    ensures var w := Run(cfg, n, start, events); Inv(cfg, n, w.s, w.log)
    decreases |events|
  {
    if events != [] {
      var k := |events| - 1;
      RunKeepsInv(cfg, n, start, events[..k]);
      var w := Run(cfg, n, start, events[..k]);
      StepKeepsInv(cfg, n, w.s, w.log, events[k]);
    }
  }

  // ---------------------------------------------------------------------------
  // The two promises
  // ---------------------------------------------------------------------------

  /** A stretch of close attempts is a burst at its end. */
  lemma {:induction false} StretchIsBurst(log: seq<Entry>, i: nat, k: nat)
    requires i < k <= |log| && log[i].Attempt?
    requires forall j | i <= j < k - 1 :: Close(log[j], log[j + 1])
    ensures Burst(log[..k]) >= k - i
    decreases k
  {
    var t := log[..k];
    if k - 1 == i {
      assert t[k - 1].Attempt?;
    } else {
      StretchIsBurst(log, i, k - 1);
      assert t[..k - 1] == log[..k - 1];
      assert Close(log[k - 2], log[k - 2 + 1]);
      assert Close(t[k - 2], t[k - 1]);
    }
  }

  /** Of any maxRestarts + 1 consecutive automatic attempts without an API request for the
      sandbox in between, two neighbours are more than ten minutes apart - whatever the
      requests for other sandboxes do, and at whatever moment they come in. */
  lemma RestartWindow(cfg: Config, n: string, start: Time, events: seq<Event>, i: nat)
    requires var log := Run(cfg, n, start, events).log;
      && cfg.maxRestarts > 0 && i + cfg.maxRestarts < |log|
      && forall j | i <= j <= i + cfg.maxRestarts :: log[j].Attempt?
    ensures var log := Run(cfg, n, start, events).log;
      exists j | i <= j < i + cfg.maxRestarts :: log[j + 1].started - log[j].recorded > 600_000_000_000
  {
    var log, k := Run(cfg, n, start, events).log, i + cfg.maxRestarts + 1;
    RunKeepsInv(cfg, n, start, events);
    assert PrefixAt(cfg, log, k);
    if forall j | i <= j < k - 1 :: Close(log[j], log[j + 1]) {
      StretchIsBurst(log, i, k);
    } else {
      var j :| i <= j < k - 1 && !Close(log[j], log[j + 1]);
      assert log[j + 1].started - log[j].recorded > COOLDOWN;
    }
  }

  lemma {:induction false} SeenThroughResets(log: seq<Entry>, j: nat, k: nat)
    requires j < k <= |log| && log[j].Attempt?
    requires forall m | j < m < k :: log[m].CountReset?
    ensures LastSeen(log[..k]) == Some(log[j].recorded)
    decreases k
  {
    var t := log[..k];
    if k - 1 > j {
      assert t[..k - 1] == log[..k - 1];
      SeenThroughResets(log, j, k - 1);
    }
  }

  /** Neighbouring attempts are at least the restart delay apart; only reset-restarts, not
      the restart request, can shorten the wait. */
  lemma RestartSpacing(cfg: Config, n: string, start: Time, events: seq<Event>, j: nat, k: nat)
    requires var log := Run(cfg, n, start, events).log;
      && j < k < |log| && log[j].Attempt? && log[k].Attempt?
      && forall m | j < m < k :: log[m].CountReset?
    ensures var log := Run(cfg, n, start, events).log;
      log[k].started - log[j].recorded >= cfg.restartDelay
  {
    var log := Run(cfg, n, start, events).log;
    RunKeepsInv(cfg, n, start, events);
    SeenThroughResets(log, j, k);
    var t := log[..k + 1];
    assert PrefixAt(cfg, log, k + 1) && t[..k] == log[..k];
  }

  /** The rest of a run, from some state on. */
  function RunOn(cfg: Config, n: string, w: Watched, events: seq<Event>): Watched
    decreases |events|
  {
    if events == [] then w
    else RunOn(cfg, n, Watched(Step(cfg, w.s, events[0]), Observe(n, w.s, events[0], w.log)), events[1..])
  }

  /** What is left of the visit in progress, at most these three critical sections. */
  function RestOfVisit(t: Clock): seq<Event> {
    [LimitCheck(t.limitAt), DelayCheck(t.delayAt), Recording(t.recordAt)]
  }

  /** The requests that clear sandbox n. */
  predicate Clears(e: Event, n: string) {
    n != "" && (e == ApiRestart(n) || e == ApiReset(n) || e == ApiReset(""))
  }

  /** What such a request has brought about is still so. */
  predicate Stands(e: Event, c: Counters, n: string) {
    CountOf(c, n) == 0 && (e.ApiReset? ==> LastOf(c, n) == None)
  }

  lemma ThreeEvents(cfg: Config, n: string, w: Watched, t: Clock)
    ensures var e := RestOfVisit(t);
      var w1 := Watched(Step(cfg, w.s, e[0]), Observe(n, w.s, e[0], w.log));
      var w2 := Watched(Step(cfg, w1.s, e[1]), Observe(n, w1.s, e[1], w1.log));
      RunOn(cfg, n, w, e) == Watched(Step(cfg, w2.s, e[2]), Observe(n, w2.s, e[2], w2.log))
  {
    var e := RestOfVisit(t);
    var w1 := Watched(Step(cfg, w.s, e[0]), Observe(n, w.s, e[0], w.log));
    var w2 := Watched(Step(cfg, w1.s, e[1]), Observe(n, w1.s, e[1], w1.log));
    var w3 := Watched(Step(cfg, w2.s, e[2]), Observe(n, w2.s, e[2], w2.log));
    assert e[1..] == [e[1], e[2]] && [e[1], e[2]][1..] == [e[2]] && [e[2]][1..] == [];
    assert RunOn(cfg, n, w2, [e[2]]) == RunOn(cfg, n, w3, []);
    assert RunOn(cfg, n, w1, [e[1], e[2]]) == RunOn(cfg, n, w2, [e[2]]);
  }

  /** The phase alone decides whether the visit in progress ends with an attempt. */
  predicate WillAttempt(cfg: Config, p: Phase, t: Clock) {
    match p
    case Idle => false
    case Looked(_, count, last) =>
      && (!AtLimit(cfg, count) || Since(last, t.limitAt) > COOLDOWN)
      && (last.Some? ==> Since(last, t.delayAt) >= cfg.restartDelay)
    case Admitted(_, _, last) => last.Some? ==> Since(last, t.delayAt) >= cfg.restartDelay
    case Starting(_, _, _) => true
  }

  lemma VisitEnds(cfg: Config, n: string, w: Watched, t: Clock)
    requires !w.s.phase.Idle? && w.s.phase.name == n
    requires w.s.now <= t.limitAt <= t.delayAt <= t.recordAt
    ensures var w' := RunOn(cfg, n, w, RestOfVisit(t));
      && w'.s.phase.Idle?
      && (w'.log == w.log <==> !WillAttempt(cfg, w.s.phase, t))
      && (if WillAttempt(cfg, w.s.phase, t) then CountOf(w'.s.c, n) > 0 && LastOf(w'.s.c, n) == Some(t.recordAt)
          else w'.s.c == w.s.c || w'.s.c == ResetCount(w.s.c, n))
  {
    ThreeEvents(cfg, n, w, t);
  }

  /** A request that clears a sandbox while the monitor is at it: whatever the phase, when
      the visit is over the request still stands if and only if the visit has recorded no
      attempt - and whether it does was settled before the request. */
  lemma RequestStandsIff(cfg: Config, n: string, w: Watched, t: Clock, e: Event)
    requires !w.s.phase.Idle? && w.s.phase.name == n && Clears(e, n)
    requires w.s.now <= t.limitAt <= t.delayAt <= t.recordAt
    ensures var asked := Watched(Step(cfg, w.s, e), w.log);
      var over := RunOn(cfg, n, asked, RestOfVisit(t));
      && over.s.phase.Idle?
      && (Stands(e, over.s.c, n) <==> over.log == w.log)
      && (over.log == w.log <==> RunOn(cfg, n, w, RestOfVisit(t)).log == w.log)
  {
    VisitEnds(cfg, n, w, t);
    VisitEnds(cfg, n, Watched(Step(cfg, w.s, e), w.log), t);
  }

  /** When the visit has got as far as starting the sandbox, a restart request leaves no
      trace at all. */
  lemma RequestDuringVisitIsLost(cfg: Config, s: System, n: string, at: Time)
    requires s.phase.Starting? && s.phase.name == n && n != "" && s.now <= at
    ensures var s' := Step(cfg, Step(cfg, s, ApiRestart(n)), Recording(at));
      s' == Step(cfg, s, Recording(at)) && CountOf(s'.c, n) == s.phase.count + 1
  {
    var c := ResetCount(s.c, n);
    assert c.count[n := s.phase.count + 1] == s.c.count[n := s.phase.count + 1];
  }

  /** A visit leaves every other sandbox alone. */
  lemma VisitTouchesOne(cfg: Config, c: Counters, sb: Sandbox, t: Clock, other: string)
    requires other != sb.name
    ensures CountOf(Visit(cfg, c, sb, t), other) == CountOf(c, other)
    ensures LastOf(Visit(cfg, c, sb, t), other) == LastOf(c, other)
  {
  }

  /** An undisturbed visit is the run of its four events. */
  lemma VisitIsRun(cfg: Config, s: System, sb: Sandbox, t: Clock)
    requires s.phase.Idle? && s.now <= t.limitAt <= t.delayAt <= t.recordAt
    ensures var s1 := Step(cfg, s, SeeSandbox(sb));
      var s2 := Step(cfg, s1, LimitCheck(t.limitAt));
      var s3 := Step(cfg, s2, DelayCheck(t.delayAt));
      var s4 := Step(cfg, s3, Recording(t.recordAt));
      s4.c == Visit(cfg, s.c, sb, t) && s4.phase.Idle?
  {
  }

  // ---------------------------------------------------------------------------
  // The limits are no stricter than promised
  // ---------------------------------------------------------------------------

  /** When the m-th attempt of a run that never waits longer than it must takes place. */
  function AttemptTime(cfg: Config, start: Time, m: nat): Time {
    if m == 0 then start else AttemptTime(cfg, start, m - 1) + cfg.restartDelay
  }

  function VisitAt(sb: Sandbox, at: Time): seq<Event> {
    [SeeSandbox(sb), LimitCheck(at), DelayCheck(at), Recording(at)]
  }

  function EagerRun(cfg: Config, sb: Sandbox, start: Time, m: nat): seq<Event> {
    if m == 0 then []
    else EagerRun(cfg, sb, start, m - 1) + VisitAt(sb, AttemptTime(cfg, start, m - 1))
  }

  /** The sandboxes the daemon is to bring back: after a failure with policy always or
      on-failure, after a plain stop with policy always only. */
  predicate Down(sb: Sandbox) {
    (sb.status == Failed && sb.policy in {Always, OnFailure}) || (sb.status == Stopped && sb.policy == Always)
  }

  function EagerLog(cfg: Config, start: Time, m: nat): seq<Entry> {
    if m == 0 then []
    else
      var at := AttemptTime(cfg, start, m - 1);
      EagerLog(cfg, start, m - 1) + [Attempt(at, at)]
  }

  /** A sandbox that goes down at once is restarted maxRestarts times at exactly the delay. */
  lemma {:induction false} AttemptsUpToLimit(cfg: Config, sb: Sandbox, start: Time, m: nat)
    requires Down(sb) && cfg.restartDelay >= 0 && (cfg.maxRestarts > 0 ==> m <= cfg.maxRestarts)
    ensures var w := Run(cfg, sb.name, start, EagerRun(cfg, sb, start, m));
      && w.log == EagerLog(cfg, start, m)
      && w.s.phase.Idle? && CountOf(w.s.c, sb.name) == m
      && w.s.now == AttemptTime(cfg, start, if m == 0 then 0 else m - 1)
      && LastOf(w.s.c, sb.name) == (if m == 0 then None else Some(w.s.now))
    decreases m
  {
    if m > 0 {
      AttemptsUpToLimit(cfg, sb, start, m - 1);
      if m > 1 {
        assert AttemptTime(cfg, start, m - 1) - AttemptTime(cfg, start, m - 2) == cfg.restartDelay;
      }
      VisitAtEnd(cfg, sb, start, EagerRun(cfg, sb, start, m - 1), AttemptTime(cfg, start, m - 1));
    }
  }

  /** The last four events of a run, a visit that starts from an idle monitor: the sandbox is
      restarted if and only if it is down and the limits allow it. */
  lemma VisitAtEnd(cfg: Config, sb: Sandbox, start: Time, before: seq<Event>, at: Time)
    requires var s := Run(cfg, sb.name, start, before).s;
      s.phase.Idle? && s.now <= at
    ensures var w, w' := Run(cfg, sb.name, start, before), Run(cfg, sb.name, start, before + VisitAt(sb, at));
      && w'.s.phase.Idle? && w'.s.c == Visit(cfg, w.s.c, sb, Clock(at, at, at))
      && (if Down(sb) && Attempts(cfg, w.s.c, sb.name, at) then w'.log == w.log + [Attempt(at, at)] && w'.s.now == at
          else w'.log == w.log)
  {
    var n, four := sb.name, VisitAt(sb, at);
    RunSnoc(cfg, n, start, before, four[0]);
    RunSnoc(cfg, n, start, before + [four[0]], four[1]);
    RunSnoc(cfg, n, start, before + [four[0]] + [four[1]], four[2]);
    RunSnoc(cfg, n, start, before + [four[0]] + [four[1]] + [four[2]], four[3]);
    assert before + four == before + [four[0]] + [four[1]] + [four[2]] + [four[3]];
  }

  /** The limits: the sandbox is below the limit or the cooldown is over, and the delay has
      passed. */
  predicate Attempts(cfg: Config, c: Counters, n: string, at: Time) {
    && (!AtLimit(cfg, CountOf(c, n)) || Since(LastOf(c, n), at) > COOLDOWN)
    && (LastOf(c, n).Some? ==> at - LastOf(c, n).value >= cfg.restartDelay)
  }

  /** At the limit the next visit restarts the sandbox if and only if more than ten minutes
      and the delay have passed since the last attempt; the count then starts over. */
  lemma AtLimitReopensIff(cfg: Config, sb: Sandbox, start: Time, before: seq<Event>, at: Time)
    requires var s := Run(cfg, sb.name, start, before).s;
      s.phase.Idle? && s.now <= at && LastOf(s.c, sb.name).Some?
    requires Down(sb) && 0 < cfg.maxRestarts <= CountOf(Run(cfg, sb.name, start, before).s.c, sb.name)
    ensures var w, w' := Run(cfg, sb.name, start, before), Run(cfg, sb.name, start, before + VisitAt(sb, at));
      var gap := at - LastOf(w.s.c, sb.name).value;
      && (w'.log == w.log + [Attempt(at, at)] <==> gap > 600_000_000_000 && gap >= cfg.restartDelay)
      && (gap > 600_000_000_000 && gap >= cfg.restartDelay ==> CountOf(w'.s.c, sb.name) == 1)
  {
    VisitAtEnd(cfg, sb, start, before, at);
  }

  /** Without counters the first visit to a sandbox that is down restarts it. */
  lemma FirstRestart(cfg: Config, c: Counters, sb: Sandbox, t: Clock)
    requires Down(sb) && sb.name !in c.count && sb.name !in c.last
    ensures var c' := Visit(cfg, c, sb, t);
      CountOf(c', sb.name) == 1 && LastOf(c', sb.name) == Some(t.recordAt)
  {
  }

  /** A sandbox that is never seen down - policy no, still running, or stopped without a
      failure under policy on-failure - is never restarted, in any run. */
  lemma {:induction false} NeverRestarted(cfg: Config, n: string, start: Time, events: seq<Event>)
    requires forall e | e in events && e.SeeSandbox? && e.sb.name == n ::
      e.sb.policy == NoRestart || e.sb.status == OtherStatus || (e.sb.policy == OnFailure && e.sb.status == Stopped)
    ensures var w := Run(cfg, n, start, events);
      (forall x | x in w.log :: !x.Attempt?) && (w.s.phase.Idle? || w.s.phase.name != n)
    decreases |events|
  {
    if events != [] {
      var k := |events| - 1;
      assert forall e | e in events[..k] :: e in events;
      assert events[k] in events;
      NeverRestarted(cfg, n, start, events[..k]);
    }
  }

  lemma RunSnoc(cfg: Config, n: string, start: Time, before: seq<Event>, e: Event)
    ensures var w := Run(cfg, n, start, before);
      Run(cfg, n, start, before + [e]) == Watched(Step(cfg, w.s, e), Observe(n, w.s, e, w.log))
  {
    assert (before + [e])[..|before|] == before;
  }
}
