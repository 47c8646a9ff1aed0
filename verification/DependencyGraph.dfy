/**
 Sandbox dependencies (archive/project-mytool/cmd/tent/depend.go): the depth-first
 cycle search.
 */
module DependencyGraph {
  import opened Wrappers

  type Name = string

  /** Sandbox name to its DependsOn list.  A name outside the map is a missing sandbox. */
  type Configs = map<Name, seq<Name>>

  /** The graph the search walks: overrides first, then the stored configurations. */
  datatype Graph = Graph(overrides: Configs, stored: Configs) {

    predicate Missing(n: Name) {
      n !in overrides && n !in stored
    }

    function Deps(n: Name): seq<Name> {
      if n in overrides then overrides[n]
      else if n in stored then stored[n]
      else []
    }
  }

  // ---------------------------------------------------------------------------
  // What a cycle is, independently of any search
  // ---------------------------------------------------------------------------

  ghost predicate IsWalk(g: Graph, p: seq<Name>) {
    && |p| > 0
    && forall i | 0 <= i < |p| - 1 :: p[i + 1] in g.Deps(p[i])
  }

  ghost predicate Joins(g: Graph, p: seq<Name>, s: Name, v: Name) {
    IsWalk(g, p) && p[0] == s && p[|p| - 1] == v
  }

  ghost predicate Reaches(g: Graph, s: Name, v: Name) {
    exists p :: Joins(g, p, s, v)
  }

  ghost predicate OnCycle(g: Graph, v: Name) {
    exists p :: |p| > 1 && Joins(g, p, v, v)
  }

  ghost predicate CycleReachable(g: Graph, s: Name) {
    exists v :: Reaches(g, s, v) && OnCycle(g, v)
  }

  /** One entry of one dependency list. */
  datatype Slot = Slot(from: Name, index: nat)

  ghost predicate PointsTo(g: Graph, slot: Slot, n: Name) {
    slot.index < |g.Deps(slot.from)| && g.Deps(slot.from)[slot.index] == n
  }

  /** Two different list entries, both reachable from s, name the same missing sandbox. */
  ghost predicate SharedDangling(g: Graph, s: Name) {
    exists m, a, b ::
      && g.Missing(m) && a != b
      && PointsTo(g, a, m) && PointsTo(g, b, m)
      && Reaches(g, s, a.from) && Reaches(g, s, b.from)
  }

  /** Exactly when the search reports "circular dependency". */
  ghost predicate Rejected(g: Graph, s: Name) {
    CycleReachable(g, s) || SharedDangling(g, s)
  }

  ghost predicate Acyclic(c: Configs) {
    forall v :: !OnCycle(Graph(map[], c), v)
  }

  // ---------------------------------------------------------------------------
  // Walks
  // ---------------------------------------------------------------------------

  lemma SelfReach(g: Graph, s: Name)
    ensures Reaches(g, s, s)
  {
    assert Joins(g, [s], s, s);
  }

  lemma ExtendReach(g: Graph, s: Name, u: Name, v: Name)
    requires Reaches(g, s, u) && v in g.Deps(u)
    ensures Reaches(g, s, v)
  {
    var p :| Joins(g, p, s, u);
    assert Joins(g, p + [v], s, v);
  }

  /** Every sandbox a walk leaves again is configured. */
  lemma OnlyKnownStep(g: Graph, p: seq<Name>)
    requires IsWalk(g, p)
    ensures forall i | 0 <= i < |p| - 1 :: !g.Missing(p[i])
  {
    forall i | 0 <= i < |p| - 1
      ensures !g.Missing(p[i])
    {
      assert p[i + 1] in g.Deps(p[i]);
    }
  }

  /** A walk survives in any graph that has at least the same edges at its nodes. */
  lemma WalkInLargerGraph(g: Graph, h: Graph, p: seq<Name>)
    requires IsWalk(g, p)
    requires forall i | 0 <= i < |p| - 1 :: forall d | d in g.Deps(p[i]) :: d in h.Deps(p[i])
    ensures IsWalk(h, p)
  {
  }

  /** A cycle can be read from any of its nodes. */
  lemma RotateCycle(g: Graph, p: seq<Name>, i: nat)
    requires IsWalk(g, p) && |p| > 1 && p[0] == p[|p| - 1] && i < |p|
    ensures OnCycle(g, p[i])
  {
    var q := p[i..] + p[1..i + 1];
    assert |q| == |p|;
    forall k | 0 <= k < |q| - 1
      ensures q[k + 1] in g.Deps(q[k])
    {
      if k < |p| - i - 1 {
        assert q[k] == p[i + k] && q[k + 1] == p[i + k + 1];
      } else if k == |p| - i - 1 {
        assert q[k] == p[|p| - 1] && q[k + 1] == p[1];
      } else {
        assert q[k] == p[k - (|p| - i) + 1] && q[k + 1] == p[k - (|p| - i) + 2];
      }
    }
    assert Joins(g, q, p[i], p[i]);
  }

  // ---------------------------------------------------------------------------
  // A finishing order certifies that nothing is wrong
  // ---------------------------------------------------------------------------

  /** Every dependency of a finished sandbox finished earlier, or is missing and
      was entered through exactly that list entry. */
  ghost predicate Settled(g: Graph, order: seq<Name>, via: map<Name, Option<Slot>>) {
    && (forall m | m in via :: g.Missing(m))
    && (forall i | 0 <= i < |order| :: !g.Missing(order[i]))
    && (forall i | 0 <= i < |order| :: SettledAt(g, order, via, i))
  }

  ghost predicate SettledAt(g: Graph, order: seq<Name>, via: map<Name, Option<Slot>>, i: nat)
    requires i < |order|
  {
    forall j | 0 <= j < |g.Deps(order[i])| ::
      var d := g.Deps(order[i])[j];
      d in order[..i] || (d in via && via[d] == Some(Slot(order[i], j)))
  }

  lemma {:induction false} WalkDescends(g: Graph, order: seq<Name>, via: map<Name, Option<Slot>>, p: seq<Name>, i: nat)
    requires Settled(g, order, via) && IsWalk(g, p) && i < |order| && p[0] == order[i]
    ensures |p| > 1 ==> p[|p| - 1] in order[..i] || p[|p| - 1] in via
    ensures p[|p| - 1] in order || p[|p| - 1] in via
    decreases |p|
  {
    if |p| > 1 {
      OnlyKnownStep(g, p);
      var j :| 0 <= j < |g.Deps(p[0])| && g.Deps(p[0])[j] == p[1];
      assert SettledAt(g, order, via, i);
      if p[1] in order[..i] {
        var k :| 0 <= k < i && order[k] == p[1];
        WalkDescends(g, order, via, p[1..], k);
        assert p[1..][|p| - 2] == p[|p| - 1];
        assert forall x | x in order[..k] :: x in order[..i];
      } else {
        assert g.Missing(p[1]);
      }
    }
  }

  lemma {:induction false} NoCycleThroughSettled(g: Graph, order: seq<Name>, via: map<Name, Option<Slot>>, v: Name, i: nat)
    requires Settled(g, order, via) && i < |order| && order[i] == v
    ensures !OnCycle(g, v)
    decreases i
  {
    if OnCycle(g, v) {
      var p :| |p| > 1 && Joins(g, p, v, v);
      WalkDescends(g, order, via, p, i);
      var k :| 0 <= k < i && order[k] == v;
      NoCycleThroughSettled(g, order, via, v, k);
    }
  }

  lemma SettledHasNoFlaw(g: Graph, order: seq<Name>, via: map<Name, Option<Slot>>, start: Name)
    requires Settled(g, order, via) && (start in order || start in via)
    ensures !Rejected(g, start)
  {
    forall v | Reaches(g, start, v)
      ensures v in order || (v in via && g.Deps(v) == [])
    {
      var p :| Joins(g, p, start, v);
      if start in order {
        var i :| 0 <= i < |order| && order[i] == start;
        WalkDescends(g, order, via, p, i);
      } else {
        OnlyKnownStep(g, p);
      }
    }
    forall v | Reaches(g, start, v)
      ensures !OnCycle(g, v)
    {
      if v in order {
        var i :| 0 <= i < |order| && order[i] == v;
        NoCycleThroughSettled(g, order, via, v, i);
      } else if OnCycle(g, v) {
        var p :| |p| > 1 && Joins(g, p, v, v);
        OnlyKnownStep(g, p);
      }
    }
    if SharedDangling(g, start) {
      var m, a, b :|
        && g.Missing(m) && a != b
        && PointsTo(g, a, m) && PointsTo(g, b, m)
        && Reaches(g, start, a.from) && Reaches(g, start, b.from);
      EnteredOnlyThrough(g, order, via, a, m);
      EnteredOnlyThrough(g, order, via, b, m);
    }
  }

  lemma EnteredOnlyThrough(g: Graph, order: seq<Name>, via: map<Name, Option<Slot>>, a: Slot, m: Name)
    requires Settled(g, order, via) && a.from in order && g.Missing(m) && PointsTo(g, a, m)
    ensures m in via && via[m] == Some(a)
  {
    var i :| 0 <= i < |order| && order[i] == a.from;
    assert SettledAt(g, order, via, i);
    assert m !in order;
  }

  // ---------------------------------------------------------------------------
  // The search itself
  // ---------------------------------------------------------------------------

  /** All names that can occur: the start and every name in a dependency list. */
  ghost function Universe(g: Graph, start: Name): set<Name> {
    {start}
    + (set n, d | n in g.overrides && d in g.overrides[n] :: d)
    + (set n, d | n in g.stored && d in g.stored[n] :: d)
  }

  /** The closure state of detectCycle.  `visited` and `path` hold the names whose map
      entry is true; `order` lists the finished sandboxes in finishing order, `via` the
      missing sandboxes entered so far, each with the entry it was entered through. */
  datatype Trace = Trace(visited: set<Name>, path: set<Name>, order: seq<Name>, via: map<Name, Option<Slot>>)

  /** How the two maps follow the recursion; `stack` is the current chain of calls. */
  ghost predicate Tracked(g: Graph, start: Name, t: Trace, stack: seq<Name>) {
    && Settled(g, t.order, t.via)
    && (forall n | n in stack :: !g.Missing(n) && n !in t.order)
    && (forall n :: n in t.visited <==> n in stack || n in t.order || n in t.via)
    && (forall n :: n in t.path <==> n in stack || n in t.via)
    && (stack != [] ==> Joins(g, stack, start, stack[|stack| - 1]))
    && (forall n | n in t.order :: Reaches(g, start, n))
    && (forall m | m in t.via && t.via[m].Some? ::
          && PointsTo(g, t.via[m].value, m)
          && (t.via[m].value.from in t.order || t.via[m].value.from in stack))
    && (stack != [] ==> forall m | m in t.via :: t.via[m].Some?)
  }

  /** `slot` is the list entry through which `name` is visited (none for the start). */
  ghost predicate EntryPoint(g: Graph, start: Name, t: Trace, name: Name, stack: seq<Name>, slot: Option<Slot>) {
    match slot
    case None => stack == [] && name == start && t.via == map[]
    case Some(e) =>
      && stack != [] && e.from == stack[|stack| - 1]
      && PointsTo(g, e, name)
      && (forall m | m in t.via :: t.via[m] != slot)
  }

  ghost predicate Grown(t0: Trace, t: Trace) {
    && t0.visited <= t.visited && t0.order <= t.order
    && (forall m | m in t0.via :: m in t.via && t.via[m] == t0.via[m])
  }

  ghost predicate NewEntries(t0: Trace, t: Trace, slot: Option<Slot>) {
    forall m | m in t.via && m !in t0.via ::
      t.via[m] == slot || (t.via[m].Some? && t.via[m].value.from in t.order)
  }

  ghost predicate EntriesBelow(t0: Trace, t: Trace, name: Name, i: nat) {
    forall m | m in t.via && m !in t0.via ::
      && t.via[m].Some?
      && (t.via[m].value.from in t.order || (t.via[m].value.from == name && t.via[m].value.index < i))
  }

  /** What one error-free call of visit does to the state. */
  ghost predicate Returned(g: Graph, start: Name, t0: Trace, t: Trace, name: Name, stack: seq<Name>, slot: Option<Slot>) {
    && Tracked(g, start, t, stack) && Grown(t0, t)
    && NewEntries(t0, t, slot)
    && (if g.Missing(name) then name in t.via && t.via[name] == slot else name in t.order)
  }

  /** The state of a call that has been through the first i dependencies of `name`. */
  ghost predicate Expanding(g: Graph, start: Name, t0: Trace, t: Trace, name: Name, stack: seq<Name>, i: nat) {
    && Tracked(g, start, t, stack + [name]) && Grown(t0, t)
    && name !in stack && name !in t0.visited && name in t.visited
    && EntriesBelow(t0, t, name, i)
    && (forall m | m in t0.via && t0.via[m].Some? :: t0.via[m].value.from != name)
    && DepsDone(g, t.order, t.via, name, i)
  }

  ghost predicate DepsDone(g: Graph, order: seq<Name>, via: map<Name, Option<Slot>>, name: Name, i: nat) {
    forall j | 0 <= j < i && j < |g.Deps(name)| ::
      var d := g.Deps(name)[j]; d in order || (d in via && via[d] == Some(Slot(name, j)))
  }

  // The same three conditions as sets of states, which keeps the proof of the method short.

  ghost function Entries(g: Graph, start: Name, name: Name, stack: seq<Name>, slot: Option<Slot>): iset<Trace> {
    iset t: Trace | Tracked(g, start, t, stack) && EntryPoint(g, start, t, name, stack, slot)
  }

  ghost function Results(g: Graph, start: Name, t0: Trace, name: Name, stack: seq<Name>, slot: Option<Slot>): iset<Trace> {
    iset t: Trace | Returned(g, start, t0, t, name, stack, slot)
  }

  ghost function Expansions(g: Graph, start: Name, t0: Trace, name: Name, stack: seq<Name>, i: nat): iset<Trace> {
    iset t: Trace | Expanding(g, start, t0, t, name, stack, i)
  }

  /** A name on the call stack closes a cycle. */
  lemma ClosesCycle(g: Graph, start: Name, name: Name, stack: seq<Name>)
    requires name in stack && Joins(g, stack, start, stack[|stack| - 1]) && name in g.Deps(stack[|stack| - 1])
    ensures CycleReachable(g, start)
  {
    var i :| 0 <= i < |stack| && stack[i] == name;
    assert Joins(g, stack[i..] + [name], name, name);
    assert Joins(g, stack[..i + 1], start, name);
    assert Reaches(g, start, name) && OnCycle(g, name);
  }

  lemma OnStackReached(g: Graph, start: Name, stack: seq<Name>, n: Name)
    requires n in stack && Joins(g, stack, start, stack[|stack| - 1])
    ensures Reaches(g, start, n)
  {
    var i :| 0 <= i < |stack| && stack[i] == n;
    assert Joins(g, stack[..i + 1], start, n);
  }

  /** A name that is already on the path closes a cycle, or is a missing sandbox
      entered before through another entry. */
  lemma FoundOnPath(g: Graph, start: Name, t: Trace, name: Name, stack: seq<Name>, slot: Option<Slot>)
    requires t in Entries(g, start, name, stack, slot)
    requires name in t.path
    ensures Rejected(g, start)
  {
    if name in stack {
      ClosesCycle(g, start, name, stack);
    } else {
      var a, b := t.via[name].value, slot.value;
      if a.from in stack {
        OnStackReached(g, start, stack, a.from);
      }
      OnStackReached(g, start, stack, b.from);
      assert PointsTo(g, a, name) && PointsTo(g, b, name) && a != b;
    }
  }

  lemma EntryReached(g: Graph, start: Name, t: Trace, name: Name, stack: seq<Name>, slot: Option<Slot>)
    requires t in Entries(g, start, name, stack, slot)
    ensures Joins(g, stack + [name], start, name)
    ensures name in Universe(g, start)
  {
    if slot.Some? {
      var from := slot.value.from;
      if from in g.overrides {
        assert name in g.overrides[from];
      } else {
        assert name in g.stored[from];
      }
    }
  }

  lemma AlreadyDone(g: Graph, start: Name, t: Trace, name: Name, stack: seq<Name>, slot: Option<Slot>)
    requires t in Entries(g, start, name, stack, slot) && name in t.visited && name !in t.path
    ensures t in Results(g, start, t, name, stack, slot)
  {
  }

  lemma SettledWithEntry(g: Graph, order: seq<Name>, via: map<Name, Option<Slot>>, name: Name, slot: Option<Slot>)
    requires Settled(g, order, via) && g.Missing(name) && name !in via
    ensures Settled(g, order, via[name := slot])
  {
    var more := via[name := slot];
    forall i: nat | i < |order|
      ensures SettledAt(g, order, more, i)
    {
      assert SettledAt(g, order, via, i);
    }
  }

  lemma SettledWithNode(g: Graph, order: seq<Name>, via: map<Name, Option<Slot>>, name: Name)
    requires Settled(g, order, via) && !g.Missing(name) && DepsDone(g, order, via, name, |g.Deps(name)|)
    ensures Settled(g, order + [name], via)
  {
    var longer := order + [name];
    forall i: nat | i < |longer|
      ensures SettledAt(g, longer, via, i)
    {
      assert longer[..i] == order[..i];
      if i < |order| {
        assert SettledAt(g, order, via, i);
      } else {
        assert order[..i] == order;
      }
    }
  }

  /** The early return for a missing sandbox: its path entry stays. */
  lemma MissingEntered(g: Graph, start: Name, t: Trace, name: Name, stack: seq<Name>, slot: Option<Slot>)
    requires t in Entries(g, start, name, stack, slot)
    requires g.Missing(name) && name !in t.visited
    ensures Trace(t.visited + {name}, t.path + {name}, t.order, t.via[name := slot]) in Results(g, start, t, name, stack, slot)
  {
    SettledWithEntry(g, t.order, t.via, name, slot);
    var t' := Trace(t.visited + {name}, t.path + {name}, t.order, t.via[name := slot]);
    assert Tracked(g, start, t', stack);
  }

  /** visited[name] = true; path[name] = true. */
  lemma Entered(g: Graph, start: Name, t: Trace, name: Name, stack: seq<Name>, slot: Option<Slot>)
    requires t in Entries(g, start, name, stack, slot)
    requires !g.Missing(name) && name !in t.visited
    ensures Trace(t.visited + {name}, t.path + {name}, t.order, t.via) in Expansions(g, start, t, name, stack, 0)
  {
    EntryReached(g, start, t, name, stack, slot);
  }

  /** The call for the i-th dependency meets the precondition of visit. */
  lemma NextEntry(g: Graph, start: Name, t0: Trace, t: Trace, name: Name, stack: seq<Name>, i: nat)
    requires t in Expansions(g, start, t0, name, stack, i) && i < |g.Deps(name)|
    ensures t in Entries(g, start, g.Deps(name)[i], stack + [name], Some(Slot(name, i)))
  {
    assert PointsTo(g, Slot(name, i), g.Deps(name)[i]);
  }

  lemma EntriesGrow(t0: Trace, t1: Trace, t: Trace, name: Name, i: nat)
    requires EntriesBelow(t0, t1, name, i) && Grown(t1, t) && NewEntries(t1, t, Some(Slot(name, i)))
    ensures EntriesBelow(t0, t, name, i + 1)
  {
  }

  lemma DepsGrow(g: Graph, t1: Trace, t: Trace, name: Name, i: nat)
    requires DepsDone(g, t1.order, t1.via, name, i) && Grown(t1, t) && i < |g.Deps(name)|
    requires var d := g.Deps(name)[i]; d in t.order || (d in t.via && t.via[d] == Some(Slot(name, i)))
    ensures DepsDone(g, t.order, t.via, name, i + 1)
  {
  }

  lemma DepVisited(g: Graph, start: Name, t0: Trace, t1: Trace, t: Trace, name: Name, stack: seq<Name>, i: nat)
    requires t1 in Expansions(g, start, t0, name, stack, i) && i < |g.Deps(name)|
    requires t in Results(g, start, t1, g.Deps(name)[i], stack + [name], Some(Slot(name, i)))
    ensures t in Expansions(g, start, t0, name, stack, i + 1)
    ensures t1.visited <= t.visited
  {
    EntriesGrow(t0, t1, t, name, i);
    DepsGrow(g, t1, t, name, i);
  }

  lemma JoinsPrefix(g: Graph, start: Name, stack: seq<Name>, name: Name)
    requires Joins(g, stack + [name], start, name)
    ensures stack != [] ==> Joins(g, stack, start, stack[|stack| - 1])
    ensures Reaches(g, start, name)
  {
    var inner := stack + [name];
    if stack != [] {
      assert forall k | 0 <= k < |stack| :: inner[k] == stack[k];
    }
  }

  lemma Popped(g: Graph, start: Name, t: Trace, name: Name, stack: seq<Name>)
    requires Tracked(g, start, t, stack + [name]) && name !in stack
    requires Settled(g, t.order + [name], t.via) && Reaches(g, start, name)
    requires stack != [] ==> Joins(g, stack, start, stack[|stack| - 1])
    ensures Tracked(g, start, Trace(t.visited, t.path - {name}, t.order + [name], t.via), stack)
  {
    assert forall n :: n in stack + [name] <==> n in stack || n == name;
    assert forall n :: n in t.order + [name] <==> n in t.order || n == name;
  }

  lemma EntriesClosed(t0: Trace, t: Trace, t': Trace, name: Name, n: nat, slot: Option<Slot>)
    requires Grown(t0, t) && EntriesBelow(t0, t, name, n)
    requires t'.visited == t.visited && t'.via == t.via && t'.order == t.order + [name]
    ensures Grown(t0, t') && NewEntries(t0, t', slot)
  {
    assert forall x :: x in t'.order <==> x in t.order || x == name;
  }

  /** path[name] = false after the last dependency. */
  lemma Finished(g: Graph, start: Name, t0: Trace, t: Trace, name: Name, stack: seq<Name>, slot: Option<Slot>)
    requires t in Expansions(g, start, t0, name, stack, |g.Deps(name)|)
    ensures Trace(t.visited, t.path - {name}, t.order + [name], t.via) in Results(g, start, t0, name, stack, slot)
  {
    SettledWithNode(g, t.order, t.via, name);
    JoinsPrefix(g, start, stack, name);
    var t' := Trace(t.visited, t.path - {name}, t.order + [name], t.via);
    EntriesClosed(t0, t, t', name, |g.Deps(name)|, slot);
    Popped(g, start, t, name, stack);
  }

  class CycleSearch {
    const g: Graph
    const start: Name
    var visited: set<Name>
    var path: set<Name>
    ghost var order: seq<Name>
    ghost var via: map<Name, Option<Slot>>

    constructor (g: Graph, start: Name)
      ensures this.g == g && this.start == start && Now() == Trace({}, {}, [], map[])
    {
      this.g, this.start := g, start;
      visited, path := {}, {};
      order, via := [], map[];
    }

    ghost function Now(): Trace
      reads this
    {
      Trace(visited, path, order, via)
    }

    method Visit(name: Name, ghost stack: seq<Name>, ghost slot: Option<Slot>) returns (err: Option<Name>)
      requires Now() in Entries(g, start, name, stack, slot)
      modifies this
      ensures err.Some? ==> Rejected(g, start)
      ensures err.None? ==> Now() in Results(g, start, old(Now()), name, stack, slot)
      decreases Universe(g, start) - visited, 0
    {
      ghost var t0 := Now();
      if name in path {
        FoundOnPath(g, start, t0, name, stack, slot);
        return Some(name);
      }
      if name in visited {
        AlreadyDone(g, start, t0, name, stack, slot);
        return None;
      }
      EntryReached(g, start, t0, name, stack, slot);
      visited := visited + {name};
      path := path + {name};

      var deps: seq<Name>;
      if name in g.overrides {
        deps := g.overrides[name];
      } else if name in g.stored {
        deps := g.stored[name];
      } else {
        MissingEntered(g, start, t0, name, stack, slot);
        via := via[name := slot];
        return None;  // missing sandbox, skip: its path entry is left in place
      }

      Entered(g, start, t0, name, stack, slot);
      err := VisitDeps(name, deps, stack, t0);
      if err.Some? {
        return err;
      }
      Finished(g, start, t0, Now(), name, stack, slot);
      path := path - {name};
      order := order + [name];
      return None;
    }

    /** The loop over the dependencies of `name`. */
    method VisitDeps(name: Name, deps: seq<Name>, ghost stack: seq<Name>, ghost t0: Trace) returns (err: Option<Name>)
      requires deps == g.Deps(name) && Now() in Expansions(g, start, t0, name, stack, 0)
      modifies this
      ensures err.Some? ==> Rejected(g, start)
      ensures err.None? ==> Now() in Expansions(g, start, t0, name, stack, |deps|)
      decreases Universe(g, start) - visited, 1
    {
      ghost var t := Now();
      var i := 0;
      while i < |deps|
        invariant 0 <= i <= |deps| && old(visited) <= visited
        invariant t == Now() && t in Expansions(g, start, t0, name, stack, i)
      {
        NextEntry(g, start, t0, t, name, stack, i);
        err := Visit(deps[i], stack + [name], Some(Slot(name, i)));
        if err.Some? {
          return err;
        }
        DepVisited(g, start, t0, t, Now(), name, stack, i);
        t := Now();
        i := i + 1;
      }
      return None;
    }
  }

  method DetectCycle(start: Name, overrides: Configs, stored: Configs) returns (err: Option<Name>)
    ensures err.Some? <==> Rejected(Graph(overrides, stored), start)
  {
    var g := Graph(overrides, stored);
    var search := new CycleSearch(g, start);
    err := search.Visit(start, [], None);
    if err.None? {
      SettledHasNoFlaw(g, search.order, search.via, start);
    }
  }
}
