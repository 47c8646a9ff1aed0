/**
 The `depend add` and `depend remove` commands (archive/project-mytool/cmd/tent/depend.go),
 which rely on the cycle search to keep the stored dependencies acyclic.
 */
module DependCommands {
  import opened Wrappers
  import opened DependencyGraph

  datatype Outcome =
    | Done
    | NoFlags
    | NotFound(name: Name)
    | SelfDependency
    | DependencyNotFound(name: Name)
    | Circular

  /** The dedup loop: appends each requested dependency that is not there yet. */
  function AppendNew(existing: seq<Name>, deps: seq<Name>): seq<Name>
    decreases |deps|
  {
    if deps == [] then existing
    else AppendNew(if deps[0] in existing then existing else existing + [deps[0]], deps[1..])
  }

  predicate Distinct(s: seq<Name>) {
    forall i, j | 0 <= i < j < |s| :: s[i] != s[j]
  }

  /** Deduplication keeps the old entries in place and loses no name. */
  lemma {:induction false} AppendNewNames(existing: seq<Name>, deps: seq<Name>)
    ensures existing <= AppendNew(existing, deps)
    ensures forall n :: n in AppendNew(existing, deps) <==> n in existing || n in deps
    ensures Distinct(existing) ==> Distinct(AppendNew(existing, deps))
    decreases |deps|
  {
    if deps != [] {
      AppendNewNames(if deps[0] in existing then existing else existing + [deps[0]], deps[1..]);
    }
  }

  /** New names come behind the old ones in the order in which they are first asked for. */
  lemma {:induction false} AppendNewInOrder(existing: seq<Name>, a: seq<Name>, b: seq<Name>)
    ensures AppendNew(existing, a + b) == AppendNew(AppendNew(existing, a), b)
    ensures AppendNew(existing, a) <= AppendNew(existing, a + b)
    decreases |a|
  {
    AppendNewNames(AppendNew(existing, a), b);
    if a == [] {
      assert a + b == b;
    } else {
      assert (a + b)[1..] == a[1..] + b;
      AppendNewInOrder(if a[0] in existing then existing else existing + [a[0]], a[1..], b);
    }
  }

  /** What is left of a list after removing every name in `deps`. */
  function Without(list: seq<Name>, deps: seq<Name>): seq<Name> {
    if list == [] then []
    else (if list[0] in deps then [] else [list[0]]) + Without(list[1..], deps)
  }

  lemma {:induction false} WithoutNames(list: seq<Name>, deps: seq<Name>)
    ensures forall n :: n in Without(list, deps) <==> n in list && n !in deps
    ensures Distinct(list) ==> Distinct(Without(list, deps))
  {
    if list != [] {
      WithoutNames(list[1..], deps);
    }
  }

  /** The names that stay keep their order. */
  lemma {:induction false} WithoutInOrder(a: seq<Name>, b: seq<Name>, deps: seq<Name>)
    ensures Without(a + b, deps) == Without(a, deps) + Without(b, deps)
    decreases |a|
  {
    if a == [] {
      assert a + b == b;
    } else {
      assert (a + b)[1..] == a[1..] + b;
      WithoutInOrder(a[1..], b, deps);
    }
  }

  lemma {:induction false} WithoutNone(list: seq<Name>, deps: seq<Name>)
    requires forall i | 0 <= i < |list| :: list[i] !in deps
    ensures Without(list, deps) == list
  {
    if list != [] {
      WithoutNone(list[1..], deps);
    }
  }

  lemma {:induction false} WithoutEvery(list: seq<Name>, deps: seq<Name>)
    requires forall i | 0 <= i < |list| :: list[i] in deps
    ensures Without(list, deps) == []
  {
    if list != [] {
      WithoutEvery(list[1..], deps);
    }
  }

  lemma {:induction false} WithoutAll(list: seq<Name>, deps: seq<Name>)
    ensures |Without(list, deps)| <= |list|
    ensures |Without(list, deps)| == |list| ==> Without(list, deps) == list
  {
    if list != [] {
      WithoutAll(list[1..], deps);
    }
  }

  lemma {:induction false} WithoutSnoc(list: seq<Name>, n: Name, deps: seq<Name>)
    ensures Without(list + [n], deps) == Without(list, deps) + (if n in deps then [] else [n])
  {
    if list == [] {
      assert [n][1..] == [];
    } else {
      assert (list + [n])[1..] == list[1..] + [n];
      WithoutSnoc(list[1..], n, deps);
    }
  }

  /** The first requested dependency that is refused, as the validation loop finds it. */
  function FirstInvalid(c: Configs, name: Name, deps: seq<Name>): Outcome {
    if deps == [] then Done
    else if deps[0] == name then SelfDependency
    else if deps[0] !in c then DependencyNotFound(deps[0])
    else FirstInvalid(c, name, deps[1..])
  }

  lemma {:induction false} AllValid(c: Configs, name: Name, deps: seq<Name>)
    ensures FirstInvalid(c, name, deps).Done? <==> forall d | d in deps :: d != name && d in c
    ensures FirstInvalid(c, name, deps).Done? || FirstInvalid(c, name, deps).SelfDependency?
         || FirstInvalid(c, name, deps).DependencyNotFound?
  {
    if deps != [] {
      AllValid(c, name, deps[1..]);
      assert deps[0] in deps;
      assert forall d | d in deps[1..] :: d in deps;
      assert forall d | d in deps :: d == deps[0] || d in deps[1..];
    }
  }

  predicate Valid(c: Configs, name: Name, d: Name) {
    d != name && d in c
  }

  /** An error names the first requested dependency that is not valid. */
  ghost predicate Blames(c: Configs, name: Name, deps: seq<Name>, d: Name) {
    exists i :: 0 <= i < |deps| && deps[i] == d && !Valid(c, name, d) && forall j | 0 <= j < i :: Valid(c, name, deps[j])
  }

  lemma {:induction false} FirstInvalidIsBlamed(c: Configs, name: Name, deps: seq<Name>)
    ensures match FirstInvalid(c, name, deps)
      case Done => true
      case SelfDependency => Blames(c, name, deps, name)
      case DependencyNotFound(d) => d != name && Blames(c, name, deps, d)
      case _ => false
  {
    if deps != [] {
      var rest := deps[1..];
      FirstInvalidIsBlamed(c, name, rest);
      if Valid(c, name, deps[0]) {
        forall d | Blames(c, name, rest, d)
          ensures Blames(c, name, deps, d)
        {
          var i :| 0 <= i < |rest| && rest[i] == d && !Valid(c, name, d) && forall j | 0 <= j < i :: Valid(c, name, rest[j]);
          assert deps[i + 1] == d;
          assert forall j | 0 < j < i + 1 :: deps[j] == rest[j - 1];
        }
      } else {
        assert deps[0] == deps[0];
      }
    }
  }

  /** The graph that `depend add` checks: the new list is not deduplicated yet. */
  function Proposed(c: Configs, name: Name, deps: seq<Name>): Graph
    requires name in c
  {
    Graph(map[name := c[name] + deps], c)
  }

  ghost function AddOutcome(c: Configs, name: Name, deps: seq<Name>): Outcome {
    if deps == [] then NoFlags
    else if name !in c then NotFound(name)
    else if !FirstInvalid(c, name, deps).Done? then FirstInvalid(c, name, deps)
    else if Rejected(Proposed(c, name, deps), name) then Circular
    else Done
  }

  ghost function AfterAdd(c: Configs, name: Name, deps: seq<Name>): Configs {
    if AddOutcome(c, name, deps).Done? then c[name := AppendNew(c[name], deps)] else c
  }

  function AfterRemove(c: Configs, name: Name, deps: seq<Name>, all: bool): Configs {
    if (!all && deps == []) || name !in c then c
    else c[name := if all then [] else Without(c[name], deps)]
  }

  /** What `depend add` leaves behind: on success the old list with every requested name
      behind it, and nothing else changed; on any error nothing changed. */
  lemma AddStores(c: Configs, name: Name, deps: seq<Name>)
    ensures var c' := AfterAdd(c, name, deps);
      if AddOutcome(c, name, deps).Done? then
        && name in c && c'.Keys == c.Keys && c[name] <= c'[name]
        && (forall d :: d in c'[name] <==> d in c[name] || d in deps)
        && (forall n | n in c && n != name :: c'[n] == c[n])
      else c' == c
  {
    if AddOutcome(c, name, deps).Done? {
      AppendNewNames(c[name], deps);
    }
  }

  /** When it succeeds and what it complains about otherwise. */
  lemma AddOutcomeIs(c: Configs, name: Name, deps: seq<Name>)
    ensures match AddOutcome(c, name, deps)
      case NoFlags => deps == []
      case NotFound(n) => n == name && name !in c && deps != []
      case SelfDependency => name in c && Blames(c, name, deps, name)
      case DependencyNotFound(d) => name in c && d != name && Blames(c, name, deps, d)
      case Circular => name in c && (forall d | d in deps :: Valid(c, name, d)) && Rejected(Proposed(c, name, deps), name)
      case Done => name in c && deps != [] && (forall d | d in deps :: Valid(c, name, d)) && !Rejected(Proposed(c, name, deps), name)
  {
    FirstInvalidIsBlamed(c, name, deps);
    AllValid(c, name, deps);
  }

  /** What `depend remove` leaves behind. */
  lemma RemoveStores(c: Configs, name: Name, deps: seq<Name>, all: bool)
    ensures var c' := AfterRemove(c, name, deps, all);
      && c'.Keys == c.Keys
      && (forall n | n in c && n != name :: c'[n] == c[n])
      && (name in c ==>
            if all then c'[name] == []
            else forall d :: d in c'[name] <==> d in c[name] && d !in deps)
  {
    if name in c {
      WithoutNames(c[name], deps);
    }
  }

  /** Removing what was added undoes the addition. */
  lemma RemoveUndoesAdd(c: Configs, name: Name, deps: seq<Name>)
    requires AddOutcome(c, name, deps).Done? && forall i | 0 <= i < |c[name]| :: c[name][i] !in deps
    ensures AfterRemove(AfterAdd(c, name, deps), name, deps, false) == c
  {
    AppendedIsRemoved(c[name], deps);
    var c' := AfterAdd(c, name, deps);
    assert AfterRemove(c', name, deps, false) == c'[name := c[name]];
  }

  lemma AppendedIsRemoved(list: seq<Name>, deps: seq<Name>)
    requires forall i | 0 <= i < |list| :: list[i] !in deps
    ensures Without(AppendNew(list, deps), deps) == list
  {
    NewOnesOnly(list, deps);
    var more := AppendNew(list, deps)[|list|..];
    assert AppendNew(list, deps) == list + more;
    WithoutInOrder(list, more, deps);
    WithoutNone(list, deps);
    WithoutEvery(more, deps);
    assert list + [] == list;
  }

  lemma {:induction false} NewOnesOnly(existing: seq<Name>, deps: seq<Name>)
    ensures existing <= AppendNew(existing, deps)
    ensures forall n | n in AppendNew(existing, deps)[|existing|..] :: n in deps
    decreases |deps|
  {
    if deps != [] {
      var next := if deps[0] in existing then existing else existing + [deps[0]];
      NewOnesOnly(next, deps[1..]);
      AppendNewNames(next, deps[1..]);
      AppendNewNames(existing, deps);
      var all := AppendNew(existing, deps);
      assert all[|existing|..] == next[|existing|..] + all[|next|..];
    }
  }

  class Manager {
    var configs: Configs

    method DependAdd(name: Name, deps: seq<Name>) returns (r: Outcome)
      modifies this
      ensures r == AddOutcome(old(configs), name, deps)
      ensures configs == AfterAdd(old(configs), name, deps)
    {
      if |deps| == 0 {
        return NoFlags;
      }
      if name !in configs {
        return NotFound(name);
      }
      var dependsOn := configs[name];

      var i := 0;
      while i < |deps|
        invariant 0 <= i <= |deps| && configs == old(configs)
        invariant FirstInvalid(configs, name, deps) == FirstInvalid(configs, name, deps[i..])
      {
        if deps[i] == name {
          return SelfDependency;
        }
        if deps[i] !in configs {
          return DependencyNotFound(deps[i]);
        }
        i := i + 1;
      }

      var err := DetectCycle(name, map[name := dependsOn + deps], configs);
      if err.Some? {
        return Circular;
      }

      var existing := set d | d in dependsOn;
      var added, k := 0, 0;
      ghost var final := AppendNew(dependsOn, deps);
      while k < |deps|
        invariant 0 <= k <= |deps| && added >= 0 && configs == old(configs)
        invariant existing == set d | d in dependsOn
        invariant AppendNew(dependsOn, deps[k..]) == final
        invariant added == 0 ==> dependsOn == configs[name]
      {
        assert deps[k..][1..] == deps[k + 1..];
        if deps[k] !in existing {
          dependsOn := dependsOn + [deps[k]];
          existing := existing + {deps[k]};
          added := added + 1;
        }
        k := k + 1;
      }
      if added > 0 {
        configs := configs[name := dependsOn];
      }
      return Done;
    }

    method DependRemove(name: Name, deps: seq<Name>, all: bool) returns (r: Outcome)
      modifies this
      ensures r == if !all && deps == [] then NoFlags else if name !in old(configs) then NotFound(name) else Done
      ensures !r.Done? ==> configs == old(configs)
      ensures configs == AfterRemove(old(configs), name, deps, all)
    {
      if !all && |deps| == 0 {
        return NoFlags;
      }
      if name !in configs {
        return NotFound(name);
      }
      if all {
        configs := configs[name := []];
        return Done;
      }
      var toRemove := set d | d in deps;
      var list := configs[name];
      var remaining, removed, i := [], 0, 0;
      while i < |list|
        invariant 0 <= i <= |list| && removed >= 0 && configs == old(configs)
        invariant remaining == Without(list[..i], deps)
        invariant removed == 0 ==> |remaining| == i
      {
        ghost var seen := list[..i];
        assert list[..i + 1] == seen + [list[i]];
        WithoutSnoc(seen, list[i], deps);
        if list[i] in toRemove {
          removed := removed + 1;
        } else {
          remaining := remaining + [list[i]];
        }
        i := i + 1;
      }
      assert list[..i] == list;
      if removed == 0 {
        WithoutAll(list, deps);
        assert configs == configs[name := list];
        return Done;
      }
      configs := configs[name := remaining];
      return Done;
    }
  }

  // ---------------------------------------------------------------------------
  // Safety over every run
  // ---------------------------------------------------------------------------

  datatype Command =
    | Add(name: Name, deps: seq<Name>)
    | Remove(name: Name, deps: seq<Name>, all: bool)

  ghost function After(c: Configs, cmd: Command): Configs {
    match cmd
    case Add(name, deps) => AfterAdd(c, name, deps)
    case Remove(name, deps, all) => AfterRemove(c, name, deps, all)
  }

  ghost function AfterRun(c: Configs, cmds: seq<Command>): Configs {
    if cmds == [] then c else AfterRun(After(c, cmds[0]), cmds[1..])
  }

  /** Every dependency names a configured sandbox. */
  ghost predicate Closed(c: Configs) {
    forall n, d | n in c && d in c[n] :: d in c
  }

  ghost predicate NoDuplicates(c: Configs) {
    forall n | n in c :: Distinct(c[n])
  }

  /** A cycle in the extended graph runs through `name`, where the search finds it, or
      was there before. */
  lemma NewCycleIsFound(c: Configs, name: Name, deps: seq<Name>, v: Name)
    requires name in c && OnCycle(Graph(map[], c[name := AppendNew(c[name], deps)]), v)
    ensures OnCycle(Graph(map[], c), v) || CycleReachable(Proposed(c, name, deps), name)
  {
    var g, g' := Graph(map[], c), Graph(map[], c[name := AppendNew(c[name], deps)]);
    var h := Proposed(c, name, deps);
    AppendNewNames(c[name], deps);
    var p :| |p| > 1 && Joins(g', p, v, v);
    if name in p {
      WalkInLargerGraph(g', h, p);
      var i :| 0 <= i < |p| && p[i] == name;
      RotateCycle(h, p, i);
      SelfReach(h, name);
    } else {
      WalkInLargerGraph(g', g, p);
      assert Joins(g, p, v, v);
    }
  }

  /** The search looks only from `name`, and at the list before deduplication; that is
      enough to keep the whole stored graph acyclic. */
  lemma AddKeepsAcyclic(c: Configs, name: Name, deps: seq<Name>)
    requires Acyclic(c)
    ensures Acyclic(AfterAdd(c, name, deps))
  {
    if AddOutcome(c, name, deps).Done? {
      forall v | OnCycle(Graph(map[], AfterAdd(c, name, deps)), v)
        ensures OnCycle(Graph(map[], c), v)
      {
        NewCycleIsFound(c, name, deps, v);
      }
    }
  }

  lemma RemoveKeepsAcyclic(c: Configs, name: Name, deps: seq<Name>, all: bool)
    requires Acyclic(c)
    ensures Acyclic(AfterRemove(c, name, deps, all))
  {
    var g, g' := Graph(map[], c), Graph(map[], AfterRemove(c, name, deps, all));
    if name in c { WithoutNames(c[name], deps); }
    forall v | OnCycle(g', v)
      ensures OnCycle(g, v)
    {
      var p :| |p| > 1 && Joins(g', p, v, v);
      WalkInLargerGraph(g', g, p);
      assert Joins(g, p, v, v);
    }
  }

  lemma AddKeepsShape(c: Configs, name: Name, deps: seq<Name>)
    ensures Closed(c) ==> Closed(AfterAdd(c, name, deps))
    ensures NoDuplicates(c) ==> NoDuplicates(AfterAdd(c, name, deps))
  {
    if AddOutcome(c, name, deps).Done? {
      AllValid(c, name, deps);
      AppendNewNames(c[name], deps);
    }
  }

  lemma RemoveKeepsShape(c: Configs, name: Name, deps: seq<Name>, all: bool)
    ensures Closed(c) ==> Closed(AfterRemove(c, name, deps, all))
    ensures NoDuplicates(c) ==> NoDuplicates(AfterRemove(c, name, deps, all))
  {
    if name in c { WithoutNames(c[name], deps); }
  }

  /** Whatever is added and removed, in any order, no dependency cycle ever gets stored. */
  lemma {:induction false} RunKeepsAcyclic(c: Configs, cmds: seq<Command>)
    requires Acyclic(c)
    ensures Acyclic(AfterRun(c, cmds))
    ensures Closed(c) ==> Closed(AfterRun(c, cmds))
    ensures NoDuplicates(c) ==> NoDuplicates(AfterRun(c, cmds))
    decreases |cmds|
  {
    if cmds != [] {
      match cmds[0] {
        case Add(name, deps) =>
          AddKeepsAcyclic(c, name, deps);
          AddKeepsShape(c, name, deps);
        case Remove(name, deps, all) =>
          RemoveKeepsAcyclic(c, name, deps, all);
          RemoveKeepsShape(c, name, deps, all);
      }
      RunKeepsAcyclic(After(c, cmds[0]), cmds[1..]);
    }
  }

  lemma NothingDangles(c: Configs, name: Name, deps: seq<Name>)
    requires Closed(c) && name in c && FirstInvalid(c, name, deps).Done?
    ensures !SharedDangling(Proposed(c, name, deps), name)
  {
    var h := Proposed(c, name, deps);
    AllValid(c, name, deps);
    forall a: Slot, m | PointsTo(h, a, m)
      ensures m in c
    {
      assert m in h.Deps(a.from);
    }
  }

  /** The other direction, over runs that start without dangling names: an addition that
      passes validation is refused exactly when storing it would close a cycle. */
  lemma AddRefusedExactlyForCycles(c: Configs, name: Name, deps: seq<Name>)
    requires Acyclic(c) && Closed(c) && name in c && deps != []
    requires FirstInvalid(c, name, deps).Done?
    ensures AddOutcome(c, name, deps).Circular? <==> !Acyclic(c[name := AppendNew(c[name], deps)])
  {
    var c' := c[name := AppendNew(c[name], deps)];
    var g', h := Graph(map[], c'), Proposed(c, name, deps);
    if AddOutcome(c, name, deps).Circular? {
      NothingDangles(c, name, deps);
      AppendNewNames(c[name], deps);
      var v :| Reaches(h, name, v) && OnCycle(h, v);
      var p :| |p| > 1 && Joins(h, p, v, v);
      WalkInLargerGraph(h, g', p);
      assert Joins(g', p, v, v);
      assert OnCycle(g', v);
    } else {
      AddKeepsAcyclic(c, name, deps);
    }
  }

  /** With a dangling name the search can refuse an addition that closes no cycle: the
      path entry of a missing sandbox is never taken back. */
  lemma DanglingNameReportedAsCycle()
    ensures var c: Configs := map["app" := ["gone"], "db" := ["gone"]];
      && Acyclic(c)
      && AddOutcome(c, "app", ["db"]).Circular?
      && Acyclic(c["app" := AppendNew(c["app"], ["db"])])
  {
    var c: Configs := map["app" := ["gone"], "db" := ["gone"]];
    var c' := c["app" := AppendNew(c["app"], ["db"])];
    assert AppendNew(["gone"], ["db"]) == ["gone", "db"];
    var via := map["gone" := Some(Slot("db", 0))];
    RankedIsAcyclic(c, map["gone" := 0, "db" := 1, "app" := 2]);
    RankedIsAcyclic(c', map["gone" := 0, "db" := 1, "app" := 2]);
    var h := Proposed(c, "app", ["db"]);
    assert h.Deps("app") == ["gone", "db"];
    SelfReach(h, "app");
    ExtendReach(h, "app", "app", "db");
    assert PointsTo(h, Slot("app", 0), "gone") && PointsTo(h, Slot("db", 0), "gone");
    assert SharedDangling(h, "app");
    assert FirstInvalid(c, "app", ["db"]).Done?;
  }

  ghost predicate Ranked(c: Configs, rank: map<Name, nat>) {
    forall n | n in c :: n in rank && forall d | d in c[n] :: d in rank && rank[d] < rank[n]
  }

  /** A strictly decreasing rank rules out cycles. */
  lemma RankedIsAcyclic(c: Configs, rank: map<Name, nat>)
    requires Ranked(c, rank)
    ensures Acyclic(c)
  {
    var g := Graph(map[], c);
    forall v
      ensures !OnCycle(g, v)
    {
      if OnCycle(g, v) {
        var p :| |p| > 1 && Joins(g, p, v, v);
        RankFalls(c, rank, p);
      }
    }
  }

  lemma {:induction false} RankFalls(c: Configs, rank: map<Name, nat>, p: seq<Name>)
    requires Ranked(c, rank)
    requires IsWalk(Graph(map[], c), p) && |p| > 1
    ensures p[0] in rank && p[|p| - 1] in rank && rank[p[|p| - 1]] < rank[p[0]]
  {
    assert p[1] in Graph(map[], c).Deps(p[0]);
    if |p| > 2 {
      RankFalls(c, rank, p[1..]);
    }
  }
}
