/**
 Search results of several agents, merged into one list (memory/asmr/searcher.py).  Scores
 are real numbers; memories, rankings and the order in which agents finish are inputs.
 */
module FindingsMerge {
  import opened Wrappers
  import opened Sequences

  datatype Finding = Finding(id: string, source: string, relevance: real, confidence: real, foundBy: Option<seq<string>>)

  /** by_source: the results kept for one specialization. */
  datatype Source = Source(spec: string, results: seq<Finding>)

  /** One finding as the merge loop meets it. */
  datatype Hit = Hit(spec: string, f: Finding)

  function Min(a: real, b: real): real {
    if a <= b then a else b
  }

  function Boost(f: Finding, spec: string): Finding {
    var known := if f.foundBy.Some? then f.foundBy.value else [];
    var foundBy := if spec in known then f.foundBy
                   else Some((if f.foundBy.Some? then known else [f.source]) + [spec]);
    f.(confidence := Min(1.0, f.confidence + 0.1), foundBy := foundBy)
  }

  function IndexOf(all: seq<Finding>, id: string): (i: nat)
    ensures i <= |all|
    ensures i < |all| ==> all[i].id == id
  {
    if all == [] then 0
    else if all[0].id == id then 0
    else 1 + IndexOf(all[1..], id)
  }

  /** What the loop does with one finding. */
  function MergeHit(all: seq<Finding>, h: Hit): seq<Finding> {
    var i := IndexOf(all, h.f.id);
    if h.f.id == "" then all
    else if i == |all| then all + [h.f]
    else all[i := Boost(all[i], h.spec)]
  }

  function Merged(hits: seq<Hit>): seq<Finding> {
    if hits == [] then []
    else MergeHit(Merged(hits[..|hits| - 1]), hits[|hits| - 1])
  }

  function HitsOf(s: Source): seq<Hit> {
    seq(|s.results|, i requires 0 <= i < |s.results| => Hit(s.spec, s.results[i]))
  }

  function AllHits(sources: seq<Source>): seq<Hit> {
    if sources == [] then []
    else AllHits(sources[..|sources| - 1]) + HitsOf(sources[|sources| - 1])
  }

  function IdSet(all: seq<Finding>): set<string> {
    set f | f in all :: f.id
  }

  // ---------------------------------------------------------------------------
  // The loops
  // ---------------------------------------------------------------------------

  lemma {:induction false} IndexIsFirst(all: seq<Finding>, id: string)
    ensures IndexOf(all, id) < |all| <==> id in IdSet(all)
    ensures forall j | 0 <= j < IndexOf(all, id) :: all[j].id != id
  {
    if all != [] && all[0].id != id {
      IndexIsFirst(all[1..], id);
      assert forall j | 0 < j < |all| :: all[j] == all[1..][j - 1];
    }
  }

  lemma MergedIdsGrow(all: seq<Finding>, h: Hit)
    ensures IdSet(MergeHit(all, h)) == IdSet(all) + (if h.f.id == "" then {} else {h.f.id})
  {
    IndexIsFirst(all, h.f.id);
    var i := IndexOf(all, h.f.id);
    if h.f.id != "" && i < |all| {
      ReplacedKeepsIds(all, i, Boost(all[i], h.spec));
    }
  }

  lemma ReplacedKeepsIds(all: seq<Finding>, i: nat, f: Finding)
    requires i < |all| && f.id == all[i].id
    ensures IdSet(all[i := f]) == IdSet(all)
  {
    var after := all[i := f];
    forall id | id in IdSet(all)
      ensures id in IdSet(after)
    {
      var j :| 0 <= j < |all| && all[j].id == id;
      assert after[j] in after;
    }
  }

  /** SearcherPool.search: the merge over by_source. */
  method MergeSources(sources: seq<Source>) returns (all: seq<Finding>)
    ensures all == Merged(AllHits(sources))
  {
    all := [];
    var seen: set<string> := {};
    for s := 0 to |sources|
      invariant all == Merged(AllHits(sources[..s])) && seen == IdSet(all)
    {
      all, seen := MergeSource(sources[s], all, seen, AllHits(sources[..s]));
      assert sources[..s + 1][..s] == sources[..s];
    }
    assert sources[..|sources|] == sources;
  }

  method MergeSource(source: Source, before: seq<Finding>, seenBefore: set<string>, ghost hits: seq<Hit>)
    returns (all: seq<Finding>, seen: set<string>)
    requires before == Merged(hits) && seenBefore == IdSet(before)
    ensures all == Merged(hits + HitsOf(source)) && seen == IdSet(all)
  {
    all, seen := before, seenBefore;
    var i := 0;
    assert hits + HitsOf(source)[..0] == hits;
    while i < |source.results|
      invariant 0 <= i <= |source.results|
      invariant all == Merged(hits + HitsOf(source)[..i]) && seen == IdSet(all)
    {
      var finding := source.results[i];
      ghost var h := Hit(source.spec, finding);
      MergedIds(hits + HitsOf(source)[..i]);
      MergedIdsGrow(all, h);
      OneMoreHit(hits, HitsOf(source), i);
      IndexIsFirst(all, finding.id);
      if finding.id != "" && finding.id !in seen {
        seen := seen + {finding.id};
        all := all + [finding];
      } else if finding.id in seen {
        var k := FindExisting(all, finding.id);
        all := all[k := Boost(all[k], source.spec)];
      }
      i := i + 1;
    }
    assert HitsOf(source)[..i] == HitsOf(source);
  }

  lemma OneMoreHit(hits: seq<Hit>, more: seq<Hit>, i: nat)
    requires i < |more|
    ensures Merged(hits + more[..i + 1]) == MergeHit(Merged(hits + more[..i]), more[i])
  {
    var a := hits + more[..i + 1];
    assert a[..|a| - 1] == hits + more[..i];
  }

  method FindExisting(all: seq<Finding>, id: string) returns (k: nat)
    requires id in IdSet(all)
    ensures k < |all| && k == IndexOf(all, id)
  {
    IndexIsFirst(all, id);
    k := 0;
    while all[k].id != id
      invariant k < |all| && k + IndexOf(all[k..], id) == IndexOf(all, id) < |all|
      decreases |all| - k
    {
      assert all[k..][1..] == all[k + 1..];
      k := k + 1;
    }
  }

  // ---------------------------------------------------------------------------
  // Identifiers
  // ---------------------------------------------------------------------------

  ghost predicate UniqueIds(all: seq<Finding>) {
    forall i, j | 0 <= i < j < |all| :: all[i].id != all[j].id
  }

  function NonEmptyIds(hits: seq<Hit>): set<string> {
    set h | h in hits && h.f.id != "" :: h.f.id
  }

  lemma {:induction false} MergedIds(hits: seq<Hit>)
    ensures UniqueIds(Merged(hits)) && IdSet(Merged(hits)) == NonEmptyIds(hits)
  {
    if hits != [] {
      var init, h := hits[..|hits| - 1], hits[|hits| - 1];
      MergedIds(init);
      MergedIdsGrow(Merged(init), h);
      IndexIsFirst(Merged(init), h.f.id);
      assert hits == init + [h];
      StaysUnique(Merged(init), h);
    }
  }

  function IdsOf(all: seq<Finding>): seq<string> {
    seq(|all|, i requires 0 <= i < |all| => all[i].id)
  }

  /** Each hit leaves the findings where they are, or adds one at the end. */
  lemma HitKeepsOrder(all: seq<Finding>, h: Hit)
    ensures IdsOf(MergeHit(all, h)) == IdsOf(all) + (if h.f.id == "" || h.f.id in IdSet(all) then [] else [h.f.id])
  {
    IndexIsFirst(all, h.f.id);
  }

  /** The findings come in the order in which their ids are first met. */
  lemma {:induction false} MergedInOrder(a: seq<Hit>, b: seq<Hit>)
    ensures IdsOf(Merged(a)) <= IdsOf(Merged(a + b))
    decreases |b|
  {
    if b == [] {
      assert a + b == a;
    } else {
      assert (a + b)[..|a + b| - 1] == a + b[..|b| - 1];
      MergedInOrder(a, b[..|b| - 1]);
      HitKeepsOrder(Merged(a + b[..|b| - 1]), b[|b| - 1]);
    }
  }

  lemma StaysUnique(all: seq<Finding>, h: Hit)
    requires UniqueIds(all)
    ensures UniqueIds(MergeHit(all, h))
  {
    IndexIsFirst(all, h.f.id);
    forall f | f in all
      ensures f.id in IdSet(all)
    {
    }
  }

  // ---------------------------------------------------------------------------
  // What becomes of one identifier
  // ---------------------------------------------------------------------------

  /** The entry of x, seen on its own. */
  function EntryOf(hits: seq<Hit>, x: string): Option<Finding> {
    if hits == [] then None
    else
      var e, h := EntryOf(hits[..|hits| - 1], x), hits[|hits| - 1];
      if h.f.id != x then e
      else if e.None? then Some(h.f)
      else Some(Boost(e.value, h.spec))
  }

  function Lookup(all: seq<Finding>, x: string): Option<Finding> {
    if IndexOf(all, x) < |all| then Some(all[IndexOf(all, x)]) else None
  }

  lemma {:induction false} IndexAppend(all: seq<Finding>, f: Finding, x: string)
    ensures IndexOf(all + [f], x) == if IndexOf(all, x) < |all| then IndexOf(all, x) else if f.id == x then |all| else |all| + 1
    decreases |all|
  {
    if all == [] {
      assert all + [f] == [f];
    } else if all[0].id != x {
      assert (all + [f])[1..] == all[1..] + [f];
      IndexAppend(all[1..], f, x);
    }
  }

  lemma {:induction false} IndexReplace(all: seq<Finding>, i: nat, f: Finding, x: string)
    requires i < |all| && f.id == all[i].id
    ensures IndexOf(all[i := f], x) == IndexOf(all, x)
    decreases |all|
  {
    if all[0].id != x {
      if i == 0 {
        assert all[i := f][1..] == all[1..];
      } else {
        assert all[i := f][1..] == all[1..][i - 1 := f];
        IndexReplace(all[1..], i - 1, f, x);
      }
    }
  }

  lemma HitLookup(all: seq<Finding>, h: Hit, x: string)
    requires x != ""
    ensures Lookup(MergeHit(all, h), x) ==
      if h.f.id != x then Lookup(all, x)
      else if Lookup(all, x).None? then Some(h.f)
      else Some(Boost(Lookup(all, x).value, h.spec))
  {
    var i := IndexOf(all, h.f.id);
    IndexAppend(all, h.f, x);
    if i < |all| {
      IndexReplace(all, i, Boost(all[i], h.spec), x);
      if h.f.id != x && IndexOf(all, x) < |all| {
        assert IndexOf(all, x) != i;
      }
    }
  }

  lemma {:induction false} MergedEntry(hits: seq<Hit>, x: string)
    requires x != ""
    ensures Lookup(Merged(hits), x) == EntryOf(hits, x)
  {
    if hits != [] {
      MergedEntry(hits[..|hits| - 1], x);
      HitLookup(Merged(hits[..|hits| - 1]), hits[|hits| - 1], x);
    }
  }

  /** The specializations that hit x, in order. */
  function SpecsOf(hits: seq<Hit>, x: string): seq<string> {
    if hits == [] then []
    else SpecsOf(hits[..|hits| - 1], x) + (if hits[|hits| - 1].f.id == x then [hits[|hits| - 1].spec] else [])
  }

  function FirstOf(hits: seq<Hit>, x: string): Option<Finding> {
    if hits == [] then None
    else
      var e := FirstOf(hits[..|hits| - 1], x);
      if e.None? && hits[|hits| - 1].f.id == x then Some(hits[|hits| - 1].f) else e
  }

  /** The confidence of a finding that m hits confirm. */
  function Confidence(c: real, m: nat): real {
    if m <= 1 then c else Min(1.0, c + 0.1 * (m - 1) as real)
  }

  lemma OneMoreConfirmation(c: real, m: nat)
    requires m > 0
    ensures Confidence(c, m + 1) == Min(1.0, Confidence(c, m) + 0.1)
  {
    assert 0.1 * m as real == 0.1 * (m - 1) as real + 0.1;
  }

  lemma {:induction false} EntryConfidence(hits: seq<Hit>, x: string)
    ensures FirstOf(hits, x).Some? <==> SpecsOf(hits, x) != []
    ensures EntryOf(hits, x).Some? <==> SpecsOf(hits, x) != []
    ensures SpecsOf(hits, x) != [] ==>
      var g, f := EntryOf(hits, x).value, FirstOf(hits, x).value;
      && g.id == f.id == x && g.source == f.source && g.relevance == f.relevance
      && g.confidence == Confidence(f.confidence, |SpecsOf(hits, x)|)
  {
    if hits != [] {
      var init := hits[..|hits| - 1];
      EntryConfidence(init, x);
      if SpecsOf(init, x) != [] {
        OneMoreConfirmation(FirstOf(init, x).value.confidence, |SpecsOf(init, x)|);
      }
    }
  }

  ghost predicate DistinctStrings(s: seq<string>) {
    forall i, j | 0 <= i < j < |s| :: s[i] != s[j]
  }

  /** The entry of an id that these specializations have found. */
  predicate FoundBy(e: Option<Finding>, specs: seq<string>) {
    && (e.Some? <==> specs != [])
    && (e.Some? ==> e.value.source == specs[0] && e.value.foundBy == if |specs| == 1 then None else Some(specs))
  }

  lemma BoostNotes(f: Finding, specs: seq<string>, spec: string)
    requires FoundBy(Some(f), specs) && spec !in specs
    ensures FoundBy(Some(Boost(f, spec)), specs + [spec])
  {
    if |specs| == 1 {
      assert specs == [f.source];
    }
  }

  /** With distinct specializations, found_by lists them all once there are two. */
  lemma {:induction false} EntryFoundBy(hits: seq<Hit>, x: string)
    requires DistinctStrings(SpecsOf(hits, x))
    requires forall h | h in hits :: h.f.source == h.spec && h.f.foundBy.None?
    ensures FoundBy(EntryOf(hits, x), SpecsOf(hits, x))
  {
    if hits != [] {
      var init, h := hits[..|hits| - 1], hits[|hits| - 1];
      var specs := SpecsOf(init, x);
      assert h in hits && forall h' | h' in init :: h' in hits;
      if h.f.id == x {
        DistinctSnoc(specs, h.spec);
      } else {
        assert specs + [] == specs;
      }
      EntryFoundBy(init, x);
      if h.f.id == x && specs != [] {
        BoostNotes(EntryOf(init, x).value, specs, h.spec);
      }
    }
  }

  lemma DistinctSnoc(s: seq<string>, x: string)
    ensures DistinctStrings(s + [x]) <==> DistinctStrings(s) && x !in s
  {
    var t := s + [x];
    if DistinctStrings(t) {
      assert forall i | 0 <= i < |s| :: t[i] == s[i] && t[i] != t[|s|];
    }
  }

  // ---------------------------------------------------------------------------
  // From hits to sources
  // ---------------------------------------------------------------------------

  /** What the agents deliver: every id once, marked with the agent's specialization. */
  ghost predicate AgentResult(s: Source) {
    UniqueIds(s.results) && forall f | f in s.results :: f.source == s.spec && f.foundBy.None?
  }

  ghost predicate SourcesOk(sources: seq<Source>) {
    && (forall s | s in sources :: AgentResult(s))
    && forall i, j | 0 <= i < j < |sources| :: sources[i].spec != sources[j].spec
  }

  /** The specializations whose results hold x. */
  function SpecsWith(sources: seq<Source>, x: string): seq<string> {
    if sources == [] then []
    else
      var s := sources[|sources| - 1];
      SpecsWith(sources[..|sources| - 1], x) + (if x in IdSet(s.results) then [s.spec] else [])
  }

  lemma {:induction false} SpecsJoin(a: seq<Hit>, b: seq<Hit>, x: string)
    ensures SpecsOf(a + b, x) == SpecsOf(a, x) + SpecsOf(b, x)
    decreases |b|
  {
    if b == [] {
      assert a + b == a;
    } else {
      assert (a + b)[..|a + b| - 1] == a + b[..|b| - 1];
      SpecsJoin(a, b[..|b| - 1], x);
    }
  }

  lemma {:induction false} SpecsOfSource(s: Source, n: nat, x: string)
    requires n <= |s.results| && UniqueIds(s.results)
    ensures SpecsOf(HitsOf(s)[..n], x) == if x in IdSet(s.results[..n]) then [s.spec] else []
  {
    if n > 0 {
      SpecsOfSource(s, n - 1, x);
      assert HitsOf(s)[..n][..n - 1] == HitsOf(s)[..n - 1];
      assert s.results[..n] == s.results[..n - 1] + [s.results[n - 1]];
      OneMoreId(s.results, n - 1, x);
    }
  }

  lemma OneMoreId(all: seq<Finding>, n: nat, x: string)
    requires n < |all| && UniqueIds(all)
    ensures x in IdSet(all[..n + 1]) <==> x in IdSet(all[..n]) || x == all[n].id
    ensures x == all[n].id ==> x !in IdSet(all[..n])
  {
    assert all[..n + 1] == all[..n] + [all[n]];
    assert forall f | f in all[..n] :: f.id != all[n].id;
  }

  lemma SpecsOfLast(init: seq<Source>, s: Source, x: string)
    requires AgentResult(s) && SpecsOf(AllHits(init), x) == SpecsWith(init, x)
    ensures SpecsOf(AllHits(init) + HitsOf(s), x) == SpecsWith(init, x) + (if x in IdSet(s.results) then [s.spec] else [])
  {
    SpecsJoin(AllHits(init), HitsOf(s), x);
    SpecsOfSource(s, |s.results|, x);
    assert HitsOf(s)[..|s.results|] == HitsOf(s) && s.results[..|s.results|] == s.results;
  }

  lemma {:induction false} SpecsOfSources(sources: seq<Source>, x: string)
    requires forall s | s in sources :: AgentResult(s)
    ensures SpecsOf(AllHits(sources), x) == SpecsWith(sources, x)
  {
    if sources != [] {
      var init, s := sources[..|sources| - 1], sources[|sources| - 1];
      assert s in sources && forall s' | s' in init :: s' in sources;
      SpecsOfSources(init, x);
      SpecsOfLast(init, s, x);
    }
  }

  lemma {:induction false} SpecsAreKnown(sources: seq<Source>, x: string)
    ensures forall p | p in SpecsWith(sources, x) :: exists i :: 0 <= i < |sources| && sources[i].spec == p
  {
    if sources != [] {
      var n := |sources| - 1;
      SpecsAreKnown(sources[..n], x);
      forall p | p in SpecsWith(sources, x)
        ensures exists i :: 0 <= i < |sources| && sources[i].spec == p
      {
        if p in SpecsWith(sources[..n], x) {
          var i :| 0 <= i < n && sources[..n][i].spec == p;
          assert sources[i].spec == p;
        } else {
          assert sources[n].spec == p;
        }
      }
    }
  }

  lemma {:induction false} SpecsAreDistinct(sources: seq<Source>, x: string)
    requires forall i, j | 0 <= i < j < |sources| :: sources[i].spec != sources[j].spec
    ensures DistinctStrings(SpecsWith(sources, x))
  {
    if sources != [] {
      var n := |sources| - 1;
      SpecsAreDistinct(sources[..n], x);
      SpecsAreKnown(sources[..n], x);
      DistinctSnoc(SpecsWith(sources[..n], x), sources[n].spec);
    }
  }

  lemma {:induction false} HitsAreMarked(sources: seq<Source>)
    requires forall s | s in sources :: AgentResult(s)
    ensures forall h | h in AllHits(sources) :: h.f.source == h.spec && h.f.foundBy.None?
  {
    if sources != [] {
      var init, s := sources[..|sources| - 1], sources[|sources| - 1];
      assert s in sources && forall s' | s' in init :: s' in sources;
      HitsAreMarked(init);
      forall h | h in HitsOf(s)
        ensures h.f.source == h.spec && h.f.foundBy.None?
      {
        assert h.f in s.results;
      }
    }
  }

  /** An id found by m sources, the first with confidence c, is merged into one finding
      with that source's relevance and the confidence c for m == 1 and
      min(1, c + 0.1 (m - 1)) otherwise, and with the m sources in found_by. */
  lemma MergedFinding(sources: seq<Source>, x: string)
    requires SourcesOk(sources) && x != ""
    ensures var specs, g := SpecsWith(sources, x), Lookup(Merged(AllHits(sources)), x);
      && (g.Some? <==> specs != [])
      && (g.Some? ==>
        && FirstOf(AllHits(sources), x).Some?
        && var f := FirstOf(AllHits(sources), x).value;
           && g.value.relevance == f.relevance
           && g.value.confidence == (var more := 0.1 * (|specs| - 1) as real;
                if |specs| == 1 then f.confidence else if f.confidence + more <= 1.0 then f.confidence + more else 1.0)
           && FoundBy(g, specs))
  {
    var hits := AllHits(sources);
    MergedEntry(hits, x);
    EntryConfidence(hits, x);
    SpecsOfSources(sources, x);
    SpecsAreDistinct(sources, x);
    HitsAreMarked(sources);
    EntryFoundBy(hits, x);
  }

  // ---------------------------------------------------------------------------
  // Ranking
  // ---------------------------------------------------------------------------

  function Score(f: Finding): real {
    f.relevance * f.confidence
  }

  ghost predicate BestFirst(all: seq<Finding>) {
    forall i, j | 0 <= i < j < |all| :: Score(all[i]) >= Score(all[j])
  }

  /** list.sort by score, descending: equal scores keep their order. */
  function Ranked(all: seq<Finding>): seq<Finding> {
    if all == [] then [] else Insert(Ranked(all[..|all| - 1]), all[|all| - 1])
  }

  function Insert(sorted: seq<Finding>, f: Finding): seq<Finding> {
    if sorted == [] || Score(sorted[0]) < Score(f) then [f] + sorted
    else [sorted[0]] + Insert(sorted[1..], f)
  }

  lemma {:induction false} InsertMembers(sorted: seq<Finding>, f: Finding)
    ensures multiset(Insert(sorted, f)) == multiset(sorted) + multiset{f}
  {
    if sorted != [] && Score(sorted[0]) >= Score(f) {
      InsertMembers(sorted[1..], f);
      assert sorted == [sorted[0]] + sorted[1..];
    }
  }

  lemma PrependBest(f: Finding, all: seq<Finding>)
    requires BestFirst(all) && forall g | g in all :: Score(f) >= Score(g)
    ensures BestFirst([f] + all)
  {
  }

  lemma {:induction false} InsertSorted(sorted: seq<Finding>, f: Finding)
    requires BestFirst(sorted)
    ensures BestFirst(Insert(sorted, f))
  {
    if sorted == [] || Score(sorted[0]) < Score(f) {
      PrependBest(f, sorted);
    } else {
      var rest := Insert(sorted[1..], f);
      InsertSorted(sorted[1..], f);
      InsertMembers(sorted[1..], f);
      forall g | g in rest
        ensures Score(sorted[0]) >= Score(g)
      {
        assert g in multiset(sorted[1..]) + multiset{f};
        assert g in sorted[1..] || g == f;
      }
      PrependBest(sorted[0], rest);
    }
  }

  lemma {:induction false} RankedOrder(all: seq<Finding>)
    ensures BestFirst(Ranked(all))
  {
    if all != [] {
      RankedOrder(all[..|all| - 1]);
      InsertSorted(Ranked(all[..|all| - 1]), all[|all| - 1]);
    }
  }

  lemma {:induction false} RankedMembers(all: seq<Finding>)
    ensures multiset(Ranked(all)) == multiset(all)
  {
    if all != [] {
      var init, f := all[..|all| - 1], all[|all| - 1];
      RankedMembers(init);
      InsertMembers(Ranked(init), f);
      assert all == init + [f];
    }
  }

  lemma RankedSorts(all: seq<Finding>)
    ensures BestFirst(Ranked(all)) && multiset(Ranked(all)) == multiset(all)
  {
    RankedOrder(all);
    RankedMembers(all);
  }

  function WithScore(all: seq<Finding>, x: real): seq<Finding> {
    if all == [] then []
    else WithScore(all[..|all| - 1], x) + (if Score(all[|all| - 1]) == x then [all[|all| - 1]] else [])
  }

  lemma {:induction false} WithScoreCons(f: Finding, all: seq<Finding>, x: real)
    ensures WithScore([f] + all, x) == (if Score(f) == x then [f] else []) + WithScore(all, x)
    decreases |all|
  {
    var more := [f] + all;
    if all == [] {
      assert more[..0] == [] && WithScore(more[..0], x) == [];
    } else {
      assert more[..|more| - 1] == [f] + all[..|all| - 1];
      WithScoreCons(f, all[..|all| - 1], x);
    }
  }

  lemma {:induction false} NoneWithScore(all: seq<Finding>, x: real)
    requires forall i | 0 <= i < |all| :: Score(all[i]) < x
    ensures WithScore(all, x) == []
  {
    if all != [] {
      NoneWithScore(all[..|all| - 1], x);
    }
  }

  lemma InFrontIsStable(sorted: seq<Finding>, f: Finding, x: real)
    requires BestFirst(sorted) && (sorted != [] ==> Score(sorted[0]) < Score(f))
    ensures WithScore([f] + sorted, x) == WithScore(sorted, x) + (if Score(f) == x then [f] else [])
  {
    WithScoreCons(f, sorted, x);
    if Score(f) == x {
      assert forall i | 0 < i < |sorted| :: Score(sorted[0]) >= Score(sorted[i]);
      NoneWithScore(sorted, x);
    }
  }

  lemma {:induction false} InsertIsStable(sorted: seq<Finding>, f: Finding, x: real)
    requires BestFirst(sorted)
    ensures WithScore(Insert(sorted, f), x) == WithScore(sorted, x) + (if Score(f) == x then [f] else [])
  {
    if sorted == [] || Score(sorted[0]) < Score(f) {
      InFrontIsStable(sorted, f, x);
      assert sorted == [] ==> [f] + sorted == [f];
    } else {
      var first, rest := sorted[0], sorted[1..];
      InsertIsStable(rest, f, x);
      WithScoreCons(first, rest, x);
      WithScoreCons(first, Insert(rest, f), x);
      assert sorted == [first] + rest;
    }
  }

  /** Findings of one score keep the order in which they were found. */
  lemma {:induction false} RankedIsStable(all: seq<Finding>, x: real)
    ensures WithScore(Ranked(all), x) == WithScore(all, x)
  {
    if all != [] {
      var init := all[..|all| - 1];
      RankedIsStable(init, x);
      RankedOrder(init);
      InsertIsStable(Ranked(init), all[|all| - 1], x);
    }
  }

  /** The slice all[:limit]; a negative limit counts from the end. */
  function Trimmed(all: seq<Finding>, limit: int): seq<Finding> {
    if limit >= |all| then all
    else if limit >= 0 then all[..limit]
    else if |all| + limit >= 0 then all[..|all| + limit]
    else []
  }

  method SearchPool(sources: seq<Source>, limit: int) returns (findings: seq<Finding>)
    ensures findings == Trimmed(Ranked(Merged(AllHits(sources))), limit)
  {
    var all := MergeSources(sources);
    findings := Trimmed(Ranked(all), limit);
  }

  /** What the trim drops. */
  function Dropped(all: seq<Finding>, limit: int): seq<Finding> {
    all[|Trimmed(all, limit)|..]
  }

  /** The best findings are kept: none that is dropped scores higher than one that is kept,
      nothing gets lost otherwise, and as many are kept as the limit allows. */
  lemma BestAreKept(all: seq<Finding>, limit: int)
    ensures var kept, dropped := Trimmed(Ranked(all), limit), Dropped(Ranked(all), limit);
      && BestFirst(kept) && multiset(kept) + multiset(dropped) == multiset(all)
      && (forall a, b | a in kept && b in dropped :: a.relevance * a.confidence >= b.relevance * b.confidence)
      && (forall i, j | 0 <= i < j < |kept| :: kept[i].relevance * kept[i].confidence >= kept[j].relevance * kept[j].confidence)
      && (limit >= 0 ==> |kept| == if limit < |all| then limit else |all|)
      && (limit < 0 ==> |kept| == if |all| + limit > 0 then |all| + limit else 0)
  {
    var sorted := Ranked(all);
    RankedSorts(all);
    TrimIsPrefix(sorted, limit);
    CutInOrder(sorted, |Trimmed(sorted, limit)|);
    assert |multiset(sorted)| == |sorted| && |multiset(all)| == |all|;
  }

  lemma TrimIsPrefix(all: seq<Finding>, limit: int)
    ensures |Trimmed(all, limit)| <= |all| && Trimmed(all, limit) == all[..|Trimmed(all, limit)|]
    ensures |Trimmed(all, limit)| == if limit >= |all| then |all| else if limit >= 0 then limit else if |all| + limit > 0 then |all| + limit else 0
  {
  }

  lemma CutInOrder(sorted: seq<Finding>, n: nat)
    requires BestFirst(sorted) && n <= |sorted|
    ensures multiset(sorted[..n]) + multiset(sorted[n..]) == multiset(sorted)
    ensures forall a, b | a in sorted[..n] && b in sorted[n..] :: Score(a) >= Score(b)
  {
    assert sorted == sorted[..n] + sorted[n..];
    forall a, b | a in sorted[..n] && b in sorted[n..]
      ensures Score(a) >= Score(b)
    {
      var i :| 0 <= i < n && sorted[i] == a;
      var j :| n <= j < |sorted| && sorted[j] == b;
    }
  }

  // ---------------------------------------------------------------------------
  // One agent
  // ---------------------------------------------------------------------------

  /** The ids of the memories that the sub-queries return, one list for each. */
  function Deduped(batches: seq<seq<string>>): seq<string> {
    if batches == [] then []
    else AddNew(Deduped(batches[..|batches| - 1]), batches[|batches| - 1])
  }

  function AddNew(known: seq<string>, ids: seq<string>): seq<string> {
    if ids == [] then known
    else
      var so := AddNew(known, ids[..|ids| - 1]);
      var id := ids[|ids| - 1];
      if id != "" && id !in so then so + [id] else so
  }

  method Dedup(batches: seq<seq<string>>) returns (all: seq<string>)
    ensures all == Deduped(batches)
  {
    all := [];
    var seen: set<string> := {};
    for b := 0 to |batches|
      invariant all == Deduped(batches[..b]) && seen == set id | id in all
    {
      ghost var before := all;
      for i := 0 to |batches[b]|
        invariant all == AddNew(before, batches[b][..i]) && seen == set id | id in all
      {
        var id := batches[b][i];
        assert batches[b][..i + 1][..i] == batches[b][..i];
        if id != "" && id !in seen {
          seen := seen + {id};
          all := all + [id];
        }
      }
      assert batches[b][..|batches[b]|] == batches[b];
      assert batches[..b + 1][..b] == batches[..b];
    }
    assert batches[..|batches|] == batches;
  }

  lemma {:induction false} AddNewUnique(known: seq<string>, ids: seq<string>)
    requires DistinctStrings(known) && "" !in known
    ensures DistinctStrings(AddNew(known, ids)) && "" !in AddNew(known, ids)
    ensures forall id :: id in AddNew(known, ids) <==> id in known || (id in ids && id != "")
  {
    if ids != [] {
      var n := |ids| - 1;
      AddNewUnique(known, ids[..n]);
      assert ids == ids[..n] + [ids[n]];
    }
  }

  lemma {:induction false} AddNewInOrder(known: seq<string>, a: seq<string>, b: seq<string>)
    ensures AddNew(known, a) <= AddNew(known, a + b)
    decreases |b|
  {
    if b == [] {
      assert a + b == a;
    } else {
      assert (a + b)[..|a + b| - 1] == a + b[..|b| - 1];
      AddNewInOrder(known, a, b[..|b| - 1]);
    }
  }

  /** ... in the order in which they are first returned. */
  lemma {:induction false} DedupedInOrder(batches: seq<seq<string>>, a: seq<string>, b: seq<string>)
    ensures Deduped(batches) <= Deduped(batches + [a]) <= Deduped(batches + [a + b])
  {
    assert (batches + [a])[..|batches|] == batches && (batches + [a + b])[..|batches|] == batches;
    AddNewInOrder(Deduped(batches), [], a);
    assert [] + a == a;
    AddNewInOrder(Deduped(batches), a, b);
  }

  /** Every non-empty id that some sub-query returned, once. */
  lemma {:induction false} DedupedUnique(batches: seq<seq<string>>)
    ensures DistinctStrings(Deduped(batches)) && "" !in Deduped(batches)
    ensures forall id :: id in Deduped(batches) <==> id != "" && exists b :: b in batches && id in b
  {
    if batches != [] {
      var n := |batches| - 1;
      DedupedUnique(batches[..n]);
      AddNewUnique(Deduped(batches[..n]), batches[n]);
      forall id: string
        ensures (exists b :: b in batches && id in b) <==> (exists b :: b in batches[..n] && id in b) || id in batches[n]
      {
        assert batches == batches[..n] + [batches[n]];
      }
    }
  }

  datatype Ranking = Ranking(relevance: real, confidence: real)

  function MakeFinding(spec: string, id: string, rankings: map<string, Ranking>): Finding {
    var r := if id in rankings then rankings[id] else Ranking(0.5, 0.5);
    Finding(id, spec, r.relevance, r.confidence, None)
  }

  function MakeFindings(spec: string, ids: seq<string>, rankings: map<string, Ranking>): seq<Finding> {
    seq(|ids|, i requires 0 <= i < |ids| => MakeFinding(spec, ids[i], rankings))
  }

  /** SearchAgent.search after the memories have come in. */
  function AgentFindings(spec: string, batches: seq<seq<string>>, rankings: map<string, Ranking>, limit: int): seq<Finding> {
    Trimmed(Ranked(MakeFindings(spec, Deduped(batches), rankings)), limit)
  }

  lemma {:induction false} UniqueIsMultisetMatter(a: seq<Finding>, b: seq<Finding>)
    requires multiset(a) == multiset(b) && UniqueIds(a)
    ensures UniqueIds(b)
  {
    forall i, j | 0 <= i < j < |b|
      ensures b[i].id != b[j].id
    {
      var k := OneOfEach(b, i, a);
      var c := b[..i] + b[i + 1..];
      assert c[j - 1] == b[j] && c[j - 1] in multiset(c);
      assert forall f | f in a[..k] + a[k + 1..] :: f.id != a[k].id;
    }
  }

  lemma TrimmedMembers(all: seq<Finding>, limit: int, f: Finding)
    requires f in Trimmed(Ranked(all), limit)
    ensures f in all
  {
    RankedSorts(all);
    TrimIsPrefix(Ranked(all), limit);
    assert f in multiset(Ranked(all));
  }

  lemma MadeFrom(spec: string, ids: seq<string>, rankings: map<string, Ranking>, f: Finding)
    requires f in MakeFindings(spec, ids, rankings)
    ensures f.id in ids && f == MakeFinding(spec, f.id, rankings)
  {
  }

  /** An agent's results meet what merging relies on. */
  lemma AgentFindingsOk(spec: string, batches: seq<seq<string>>, rankings: map<string, Ranking>, limit: int)
    ensures AgentResult(Source(spec, AgentFindings(spec, batches, rankings, limit)))
  {
    var ids := Deduped(batches);
    var all := MakeFindings(spec, ids, rankings);
    DedupedUnique(batches);
    RankedSorts(all);
    UniqueIsMultisetMatter(all, Ranked(all));
    TrimIsPrefix(Ranked(all), limit);
    forall f | f in AgentFindings(spec, batches, rankings, limit)
      ensures f.source == spec && f.foundBy.None?
    {
      TrimmedMembers(all, limit, f);
      MadeFrom(spec, ids, rankings, f);
    }
  }

  /** Every finding of an agent is a memory that one of its sub-queries returned, rated as the
      ranking says, or with one half where the ranking says nothing. */
  lemma AgentFindingsRated(spec: string, batches: seq<seq<string>>, rankings: map<string, Ranking>, limit: int, f: Finding)
    requires f in AgentFindings(spec, batches, rankings, limit)
    ensures f.id != "" && exists b :: b in batches && f.id in b
    ensures if f.id in rankings then f.relevance == rankings[f.id].relevance && f.confidence == rankings[f.id].confidence
      else f.relevance == f.confidence == 0.5
  {
    var ids := Deduped(batches);
    TrimmedMembers(MakeFindings(spec, ids, rankings), limit, f);
    MadeFrom(spec, ids, rankings, f);
    DedupedUnique(batches);
  }

  // ---------------------------------------------------------------------------
  // by_source
  // ---------------------------------------------------------------------------

  /** An agent that is done: its results, or none after an exception. */
  datatype Completion = Completion(spec: string, results: Option<seq<Finding>>)

  function ResultsOf(c: Completion): seq<Finding> {
    if c.results.Some? then c.results.value else []
  }

  /** by_source[spec] = results: a key that is there keeps its place. */
  function Put(sources: seq<Source>, s: Source): seq<Source> {
    if sources == [] then [s]
    else if sources[0].spec == s.spec then [s] + sources[1..]
    else [sources[0]] + Put(sources[1..], s)
  }

  function BySource(done: seq<Completion>): seq<Source> {
    if done == [] then []
    else
      var c := done[|done| - 1];
      Put(BySource(done[..|done| - 1]), Source(c.spec, ResultsOf(c)))
  }

  ghost predicate DistinctSpecs(sources: seq<Source>) {
    forall i, j | 0 <= i < j < |sources| :: sources[i].spec != sources[j].spec
  }

  lemma {:induction false} PutMembers(sources: seq<Source>, s: Source)
    requires DistinctSpecs(sources)
    ensures forall t :: t in Put(sources, s) <==> t == s || (t in sources && t.spec != s.spec)
  {
    if sources != [] {
      var rest := sources[1..];
      assert sources == [sources[0]] + rest;
      assert forall t | t in rest :: t.spec != sources[0].spec;
      if sources[0].spec != s.spec {
        PutMembers(rest, s);
      }
    }
  }

  function Specs(sources: seq<Source>): seq<string> {
    seq(|sources|, i requires 0 <= i < |sources| => sources[i].spec)
  }

  /** A specialization keeps its place in by_source; a new one comes last. */
  lemma {:induction false} PutKeepsPlaces(sources: seq<Source>, s: Source)
    ensures Specs(Put(sources, s)) == Specs(sources) + (if s.spec in Specs(sources) then [] else [s.spec])
  {
    if sources != [] {
      assert Specs(sources) == [sources[0].spec] + Specs(sources[1..]);
      if sources[0].spec != s.spec {
        PutKeepsPlaces(sources[1..], s);
        assert Specs([sources[0]] + Put(sources[1..], s)) == [sources[0].spec] + Specs(Put(sources[1..], s));
      } else {
        assert Specs(sources)[0] == s.spec;
      }
    }
  }

  lemma {:induction false} PutKeepsDistinct(sources: seq<Source>, s: Source)
    requires DistinctSpecs(sources)
    ensures DistinctSpecs(Put(sources, s))
  {
    if sources != [] {
      var first, rest := sources[0], sources[1..];
      assert forall t | t in rest :: t.spec != first.spec;
      if first.spec != s.spec {
        PutKeepsDistinct(rest, s);
        PutMembers(rest, s);
        ConsDistinct(first, Put(rest, s));
      } else {
        ConsDistinct(s, rest);
      }
    }
  }

  lemma ConsDistinct(s: Source, rest: seq<Source>)
    requires DistinctSpecs(rest) && forall t | t in rest :: t.spec != s.spec
    ensures DistinctSpecs([s] + rest)
  {
  }

  /** The results of some agent that no later one of its specialization overtakes. */
  ghost predicate Kept(done: seq<Completion>, s: Source) {
    exists i :: 0 <= i < |done| && s == Source(done[i].spec, ResultsOf(done[i])) && LastFor(done, i)
  }

  lemma KeptSnoc(done: seq<Completion>, c: Completion, s: Source)
    ensures Kept(done + [c], s) <==> s == Source(c.spec, ResultsOf(c)) || (Kept(done, s) && s.spec != c.spec)
  {
    var more := done + [c];
    assert more[|done|] == c && LastFor(more, |done|);
    if Kept(done, s) && s.spec != c.spec {
      var i :| 0 <= i < |done| && s == Source(done[i].spec, ResultsOf(done[i])) && LastFor(done, i);
      assert more[i] == done[i] && LastFor(more, i);
    }
    if Kept(more, s) && s != Source(c.spec, ResultsOf(c)) {
      var i :| 0 <= i < |more| && s == Source(more[i].spec, ResultsOf(more[i])) && LastFor(more, i);
      assert i < |done| && more[i] == done[i] && more[|done|].spec != more[i].spec;
      assert forall j | i < j < |done| :: more[j] == done[j];
      assert LastFor(done, i);
    }
  }

  /** Only the last agent to finish counts for its specialization. */
  lemma {:induction false} LastCompletionWins(done: seq<Completion>)
    ensures DistinctSpecs(BySource(done))
    ensures forall s :: s in BySource(done) <==> Kept(done, s)
  {
    if done != [] {
      var init, c := done[..|done| - 1], done[|done| - 1];
      LastCompletionWins(init);
      PutKeepsDistinct(BySource(init), Source(c.spec, ResultsOf(c)));
      PutMembers(BySource(init), Source(c.spec, ResultsOf(c)));
      assert done == init + [c];
      forall s: Source
        ensures s in BySource(done) <==> Kept(done, s)
      {
        KeptSnoc(init, c, s);
      }
    }
  }

  /** No later agent with the same specialization. */
  predicate LastFor(done: seq<Completion>, i: nat)
    requires i < |done|
  {
    forall j | i < j < |done| :: done[j].spec != done[i].spec
  }

  /** A memory is among the merged findings if and only if an agent found it that no later
      agent of the same specialization overtakes. */
  lemma AllFindingsMergedIff(done: seq<Completion>, x: string)
    requires x != ""
    ensures Lookup(Merged(AllHits(BySource(done))), x).Some?
      <==> exists i :: 0 <= i < |done| && done[i].results.Some? && x in IdSet(done[i].results.value) && LastFor(done, i)
  {
    var sources := BySource(done);
    LastCompletionWins(done);
    MergedIds(AllHits(sources));
    IndexIsFirst(Merged(AllHits(sources)), x);
    HitIds(sources, x);
    if s :| s in sources && x in IdSet(s.results) {
      assert Kept(done, s);
    }
    if i :| 0 <= i < |done| && done[i].results.Some? && x in IdSet(done[i].results.value) && LastFor(done, i) {
      assert Kept(done, Source(done[i].spec, ResultsOf(done[i])));
    }
  }

  lemma {:induction false} HitIds(sources: seq<Source>, x: string)
    requires x != ""
    ensures x in NonEmptyIds(AllHits(sources)) <==> exists s :: s in sources && x in IdSet(s.results)
  {
    if sources != [] {
      var n := |sources| - 1;
      HitIds(sources[..n], x);
      SourceIds(sources[n], x);
      assert sources == sources[..n] + [sources[n]];
      assert NonEmptyIds(AllHits(sources)) == NonEmptyIds(AllHits(sources[..n])) + NonEmptyIds(HitsOf(sources[n]));
    }
  }

  lemma SourceIds(s: Source, x: string)
    requires x != ""
    ensures x in NonEmptyIds(HitsOf(s)) <==> x in IdSet(s.results)
  {
    if x in IdSet(s.results) {
      var i :| 0 <= i < |s.results| && s.results[i].id == x;
      assert HitsOf(s)[i].f.id == x && HitsOf(s)[i] in HitsOf(s);
    }
  }
}
