/**
 Merging compose fragments: deep_merge and the fold in assemble (core/compose.py).  A
 Python dict is a map; the order of its keys is not modelled.
 */
module DeepMerge {
  datatype Value = Scalar(text: string) | List(items: seq<Value>) | Dict(fields: map<string, Value>)

  /** What stands at one key, or nowhere. */
  datatype Slot = Missing | Holds(value: Value)

  function Get(fields: map<string, Value>, key: string): (s: Slot)
    ensures s.Holds? <==> key in fields
    ensures s.Holds? ==> s.value == fields[key]
  {
    if key in fields then Holds(fields[key]) else Missing
  }

  /** deep_merge on two dicts; any other override wins whole. */
  function Merge(base: Value, override: Value): Value
    decreases override
  {
    if base.Dict? && override.Dict? then
      Dict(map k | k in base.fields.Keys + override.fields.Keys ::
             if k !in override.fields then base.fields[k]
             else if k in base.fields then Merge(base.fields[k], override.fields[k])
             else override.fields[k])
    else override
  }

  function MergeSlots(base: Slot, override: Slot): Slot {
    if override.Missing? then base
    else if base.Missing? then override
    else Holds(Merge(base.value, override.value))
  }

  /** Key by key. */
  lemma MergedAt(x: Value, y: Value, k: string)
    requires x.Dict? && y.Dict?
    ensures Merge(x, y).Dict? && Get(Merge(x, y).fields, k) == MergeSlots(Get(x.fields, k), Get(y.fields, k))
  {
  }

  lemma SameDict(x: Value, y: Value)
    requires x.Dict? && y.Dict? && forall k :: Get(x.fields, k) == Get(y.fields, k)
    ensures x == y
  {
    forall k: string
      ensures (k in x.fields <==> k in y.fields) && (k in x.fields ==> x.fields[k] == y.fields[k])
    {
      assert Get(x.fields, k) == Get(y.fields, k);
    }
    assert x.fields == y.fields;
  }

  // ---------------------------------------------------------------------------
  // The code
  // ---------------------------------------------------------------------------

  method DeepMerge(base: map<string, Value>, override: map<string, Value>) returns (result: map<string, Value>)
    ensures Dict(result) == Merge(Dict(base), Dict(override))
    decreases Dict(override)
  {
    result := base;
    var todo := override.Keys;
    while todo != {}
      invariant todo <= override.Keys
      invariant forall k :: Get(result, k) == if k in override.Keys - todo then Get(Merge(Dict(base), Dict(override)).fields, k) else Get(base, k)
      decreases todo
    {
      var key :| key in todo;
      var value := override[key];
      MergedAt(Dict(base), Dict(override), key);
      assert Get(result, key) == Get(base, key);
      if key in result && result[key].Dict? && value.Dict? {
        var merged := DeepMerge(result[key].fields, value.fields);
        result := result[key := Dict(merged)];
      } else {
        result := result[key := value];
      }
      todo := todo - {key};
    }
    forall k: string
      ensures Get(result, k) == Get(Merge(Dict(base), Dict(override)).fields, k)
    {
      MergedAt(Dict(base), Dict(override), k);
    }
    SameDict(Dict(result), Merge(Dict(base), Dict(override)));
  }

  /** The fragments from the first to the last, on top of an empty dict. */
  function Folded(fragments: seq<map<string, Value>>): (r: Value)
    ensures r.Dict?
  {
    if fragments == [] then Dict(map[])
    else Merge(Folded(fragments[..|fragments| - 1]), Dict(fragments[|fragments| - 1]))
  }

  method MergeFragments(fragments: seq<map<string, Value>>) returns (result: map<string, Value>)
    ensures Dict(result) == Folded(fragments)
  {
    result := map[];
    for i := 0 to |fragments|
      invariant Dict(result) == Folded(fragments[..i])
    {
      assert fragments[..i + 1][..i] == fragments[..i];
      result := DeepMerge(result, fragments[i]);
    }
    assert fragments[..|fragments|] == fragments;
  }

  // ---------------------------------------------------------------------------
  // Identity and idempotence
  // ---------------------------------------------------------------------------

  /** The empty dict is an identity on both sides. */
  lemma EmptyIsIdentity(x: Value)
    requires x.Dict?
    ensures Merge(Dict(map[]), x) == x && Merge(x, Dict(map[])) == x
  {
    forall k: string
      ensures Get(Merge(Dict(map[]), x).fields, k) == Get(x.fields, k)
      ensures Get(Merge(x, Dict(map[])).fields, k) == Get(x.fields, k)
    {
      MergedAt(Dict(map[]), x, k);
      MergedAt(x, Dict(map[]), k);
    }
    SameDict(Merge(Dict(map[]), x), x);
    SameDict(Merge(x, Dict(map[])), x);
  }

  /** Everything in x is overridden by z: no key of x, at any depth, survives a merge. */
  predicate Subsumed(x: Value, z: Value)
    decreases x
  {
    x.Dict? && z.Dict? ==> forall k | k in x.fields :: k in z.fields && Subsumed(x.fields[k], z.fields[k])
  }

  lemma {:induction false} SubsumedIff(x: Value, z: Value)
    ensures Subsumed(x, z) <==> Merge(x, z) == z
    decreases x
  {
    if x.Dict? && z.Dict? {
      forall k | k in x.fields && k in z.fields
        ensures Subsumed(x.fields[k], z.fields[k]) <==> Merge(x.fields[k], z.fields[k]) == z.fields[k]
      {
        SubsumedIff(x.fields[k], z.fields[k]);
      }
      if Subsumed(x, z) {
        SubsumedAtEveryKey(x, z);
      } else {
        var k :| k in x.fields && !(k in z.fields && Subsumed(x.fields[k], z.fields[k]));
        MergedAt(x, z, k);
      }
    }
  }

  lemma SubsumedAtEveryKey(x: Value, z: Value)
    requires x.Dict? && z.Dict?
    requires forall k | k in x.fields :: k in z.fields && Merge(x.fields[k], z.fields[k]) == z.fields[k]
    ensures Merge(x, z) == z
  {
    forall k: string
      ensures Get(Merge(x, z).fields, k) == Get(z.fields, k)
    {
      MergedAt(x, z, k);
    }
    SameDict(Merge(x, z), z);
  }

  lemma {:induction false} SubsumesItself(x: Value)
    ensures Subsumed(x, x)
    decreases x
  {
    if x.Dict? {
      forall k | k in x.fields
        ensures Subsumed(x.fields[k], x.fields[k])
      {
        SubsumesItself(x.fields[k]);
      }
    }
  }

  /** Merging a value with itself changes nothing. */
  lemma MergeIdempotent(x: Value)
    ensures Merge(x, x) == x
  {
    SubsumesItself(x);
    SubsumedIff(x, x);
  }

  // ---------------------------------------------------------------------------
  // When merging is associative
  // ---------------------------------------------------------------------------

  /** Some path holds a dict, then no dict, then a dict again, and the first dict has
      something that the last one does not override. */
  predicate Resurrects(x: Value, y: Value, z: Value)
    decreases x
  {
    x.Dict? && z.Dict? &&
    if y.Dict? then exists k | k in x.fields :: k in y.fields && k in z.fields && Resurrects(x.fields[k], y.fields[k], z.fields[k])
    else !Subsumed(x, z)
  }

  /** Merging is associative exactly when no path resurrects a dict. */
  lemma {:induction false} AssociativeIff(x: Value, y: Value, z: Value)
    ensures Merge(Merge(x, y), z) == Merge(x, Merge(y, z)) <==> !Resurrects(x, y, z)
    decreases x
  {
    if x.Dict? && z.Dict? {
      if y.Dict? {
        AssociativeByKey(x, y, z);
        if exists k :: DiffersAt(x, y, z, k) {
          var k :| DiffersAt(x, y, z, k);
          KeyDiffersIff(x, y, z, k);
          AssociativeIff(x.fields[k], y.fields[k], z.fields[k]);
        } else {
          forall k | k in x.fields && k in y.fields && k in z.fields
            ensures !Resurrects(x.fields[k], y.fields[k], z.fields[k])
          {
            AssociativeIff(x.fields[k], y.fields[k], z.fields[k]);
            KeyDiffersIff(x, y, z, k);
            assert !DiffersAt(x, y, z, k);
          }
        }
      } else {
        SubsumedIff(x, z);
      }
    }
  }

  /** The two groupings disagree at key k. */
  ghost predicate DiffersAt(x: Value, y: Value, z: Value, k: string)
    requires x.Dict? && y.Dict? && z.Dict?
  {
    Get(Merge(Merge(x, y), z).fields, k) != Get(Merge(x, Merge(y, z)).fields, k)
  }

  lemma AssociativeByKey(x: Value, y: Value, z: Value)
    requires x.Dict? && y.Dict? && z.Dict?
    ensures Merge(Merge(x, y), z) == Merge(x, Merge(y, z)) <==> !exists k :: DiffersAt(x, y, z, k)
  {
    var l, r := Merge(Merge(x, y), z), Merge(x, Merge(y, z));
    if !exists k :: DiffersAt(x, y, z, k) {
      forall k: string
        ensures Get(l.fields, k) == Get(r.fields, k)
      {
        assert !DiffersAt(x, y, z, k);
      }
      SameDict(l, r);
    }
  }

  lemma KeyDiffersIff(x: Value, y: Value, z: Value, k: string)
    requires x.Dict? && y.Dict? && z.Dict?
    ensures DiffersAt(x, y, z, k) <==>
      && k in x.fields && k in y.fields && k in z.fields
      && Merge(Merge(x.fields[k], y.fields[k]), z.fields[k]) != Merge(x.fields[k], Merge(y.fields[k], z.fields[k]))
  {
    MergedAt(x, y, k);
    MergedAt(y, z, k);
    MergedAt(Merge(x, y), z, k);
    MergedAt(x, Merge(y, z), k);
  }

  /** A dict, then a scalar, then a dict at one path: an empty dict does no harm, ... */
  lemma EmptyDictDoesNotResurrect()
    ensures var x, y, z := Dict(map["a" := Dict(map[])]), Dict(map["a" := Scalar("1")]), Dict(map["a" := Dict(map[])]);
      Merge(Merge(x, y), z) == Merge(x, Merge(y, z))
  {
    var x, y, z := Dict(map["a" := Dict(map[])]), Dict(map["a" := Scalar("1")]), Dict(map["a" := Dict(map[])]);
    assert Subsumed(x.fields["a"], z.fields["a"]);
    AssociativeIff(x, y, z);
  }

  /** ... but one with a key of its own comes back in one grouping only. */
  lemma LostDictResurrects()
    ensures var x, y, z := Dict(map["a" := Dict(map["b" := Scalar("0")])]), Dict(map["a" := Scalar("1")]), Dict(map["a" := Dict(map[])]);
      Merge(Merge(x, y), z) != Merge(x, Merge(y, z))
  {
    var x, y, z := Dict(map["a" := Dict(map["b" := Scalar("0")])]), Dict(map["a" := Scalar("1")]), Dict(map["a" := Dict(map[])]);
    assert "b" in x.fields["a"].fields && "b" !in z.fields["a"].fields;
    assert !Subsumed(x.fields["a"], z.fields["a"]);
    assert Resurrects(x.fields["a"], y.fields["a"], z.fields["a"]);
    assert "a" in x.fields;
    AssociativeIff(x, y, z);
  }

  // ---------------------------------------------------------------------------
  // Path by path, the last writer wins
  // ---------------------------------------------------------------------------

  /** What stands at the end of a path: nothing, a dict, or a leaf. */
  datatype Cell = Absent | Inner | Leaf(value: Value)

  function View(v: Value, path: seq<string>): Cell
    decreases |path|
  {
    if path == [] then (if v.Dict? then Inner else Leaf(v))
    else if v.Dict? && path[0] in v.fields then View(v.fields[path[0]], path[1..])
    else Absent
  }

  function LastWriter(earlier: Cell, later: Cell): Cell {
    if later.Absent? then earlier else later
  }

  /** Some path holds a dict with entries that a leaf replaces. */
  predicate Buries(x: Value, y: Value)
    decreases x
  {
    x.Dict? &&
    if y.Dict? then exists k | k in x.fields :: k in y.fields && Buries(x.fields[k], y.fields[k])
    else x.fields != map[]
  }

  lemma {:induction false} LastWriterWins(x: Value, y: Value, path: seq<string>)
    requires !Buries(x, y)
    ensures View(Merge(x, y), path) == LastWriter(View(x, path), View(y, path))
    decreases |path|
  {
    if path != [] && x.Dict? && y.Dict? {
      var k := path[0];
      MergedAt(x, y, k);
      if k in x.fields && k in y.fields {
        LastWriterWins(x.fields[k], y.fields[k], path[1..]);
      }
    }
  }

  lemma {:induction false} BuriedPath(x: Value, y: Value) returns (path: seq<string>)
    requires Buries(x, y)
    ensures View(Merge(x, y), path) != LastWriter(View(x, path), View(y, path))
    decreases x
  {
    if y.Dict? {
      var k :| k in x.fields && k in y.fields && Buries(x.fields[k], y.fields[k]);
      var rest := BuriedPath(x.fields[k], y.fields[k]);
      path := [k] + rest;
      assert path[1..] == rest;
      MergedAt(x, y, k);
    } else {
      var k :| k in x.fields;
      path := [k];
      assert View(x.fields[k], path[1..]) != Absent;
    }
  }

  /** A merge is path-wise last-writer-wins exactly when it buries no dict under a leaf. */
  lemma LastWriterWinsIff(x: Value, y: Value)
    ensures !Buries(x, y) <==> forall path :: View(Merge(x, y), path) == LastWriter(View(x, path), View(y, path))
  {
    if Buries(x, y) {
      var path := BuriedPath(x, y);
    } else {
      forall path
        ensures View(Merge(x, y), path) == LastWriter(View(x, path), View(y, path))
      {
        LastWriterWins(x, y, path);
      }
    }
  }

  /** What the last fragment that has anything at the path has there. */
  function LastView(fragments: seq<map<string, Value>>, path: seq<string>): Cell {
    if fragments == [] then View(Dict(map[]), path)
    else LastWriter(LastView(fragments[..|fragments| - 1], path), View(Dict(fragments[|fragments| - 1]), path))
  }

  /** No fragment puts a leaf where an earlier one has a dict with entries. */
  ghost predicate Compatible(fragments: seq<map<string, Value>>) {
    forall i, j | 0 <= i < j < |fragments| :: !Buries(Dict(fragments[i]), Dict(fragments[j]))
  }

  /** A buried dict, seen through paths. */
  lemma {:induction false} BuriesAtPath(x: Value, y: Value, path: seq<string>, k: string)
    requires View(x, path + [k]) != Absent && View(y, path).Leaf?
    ensures Buries(x, y)
    decreases |path|
  {
    if path == [] {
      assert (path + [k])[0] == k;
      assert k in x.fields;
    } else {
      assert (path + [k])[1..] == path[1..] + [k];
      BuriesAtPath(x.fields[path[0]], y.fields[path[0]], path[1..], k);
    }
  }

  lemma {:induction false} BuriedAt(x: Value, y: Value) returns (path: seq<string>, k: string)
    requires Buries(x, y)
    ensures View(x, path + [k]) != Absent && View(y, path).Leaf?
    decreases x
  {
    if y.Dict? {
      var k' :| k' in x.fields && k' in y.fields && Buries(x.fields[k'], y.fields[k']);
      var rest;
      rest, k := BuriedAt(x.fields[k'], y.fields[k']);
      path := [k'] + rest;
      assert path[1..] == rest && (path + [k])[1..] == rest + [k];
    } else {
      k :| k in x.fields;
      path := [];
      assert (path + [k])[0] == k;
    }
  }

  lemma {:induction false} SomeFragmentWrote(fragments: seq<map<string, Value>>, path: seq<string>) returns (i: nat)
    requires fragments != [] && path != [] && LastView(fragments, path) != Absent
    ensures i < |fragments| && View(Dict(fragments[i]), path) != Absent
    decreases |fragments|
  {
    var n := |fragments| - 1;
    if View(Dict(fragments[n]), path) != Absent {
      i := n;
    } else {
      i := SomeFragmentWrote(fragments[..n], path);
    }
  }

  lemma FoldBuriesNothing(fragments: seq<map<string, Value>>, n: nat)
    requires n < |fragments| && Compatible(fragments)
    requires forall path :: View(Folded(fragments[..n]), path) == LastView(fragments[..n], path)
    ensures !Buries(Folded(fragments[..n]), Dict(fragments[n]))
  {
    var init := fragments[..n];
    if Buries(Folded(init), Dict(fragments[n])) {
      var path, k := BuriedAt(Folded(init), Dict(fragments[n]));
      var i := SomeFragmentWrote(init, path + [k]);
      BuriesAtPath(Dict(fragments[i]), Dict(fragments[n]), path, k);
    }
  }

  /** The fold over compatible fragments is path-wise last-writer-wins. */
  lemma {:induction false} FoldIsLastWriterWins(fragments: seq<map<string, Value>>, path: seq<string>)
    requires Compatible(fragments)
    ensures View(Folded(fragments), path) == LastView(fragments, path)
    decreases |fragments|
  {
    if fragments != [] {
      var n := |fragments| - 1;
      forall p
        ensures View(Folded(fragments[..n]), p) == LastView(fragments[..n], p)
      {
        FoldIsLastWriterWins(fragments[..n], p);
      }
      FoldBuriesNothing(fragments, n);
      LastWriterWins(Folded(fragments[..n]), Dict(fragments[n]), path);
    }
  }

  /** Does the value hold anything at the path? */
  predicate Writes(v: Value, path: seq<string>) {
    View(v, path) != Absent
  }

  /** A leaf of the value stands on the way to the path. */
  predicate Blocks(v: Value, path: seq<string>)
    decreases |path|
  {
    path != [] && (v.Dict? ==> path[0] in v.fields && Blocks(v.fields[path[0]], path[1..]))
  }

  lemma {:induction false} BlocksIff(v: Value, path: seq<string>)
    ensures Blocks(v, path) <==> exists n :: 0 <= n < |path| && View(v, path[..n]).Leaf?
    decreases |path|
  {
    if path != [] {
      if !v.Dict? {
        assert View(v, path[..0]).Leaf?;
      } else if path[0] in v.fields {
        var w, rest := v.fields[path[0]], path[1..];
        BlocksIff(w, rest);
        if n :| 0 <= n < |rest| && View(w, rest[..n]).Leaf? {
          assert path[..n + 1][0] == path[0] && path[..n + 1][1..] == rest[..n];
          assert View(v, path[..n + 1]).Leaf?;
        }
        if n :| 0 <= n < |path| && View(v, path[..n]).Leaf? {
          assert n > 0 && path[..n][0] == path[0] && path[..n][1..] == rest[..n - 1];
          assert View(w, rest[..n - 1]).Leaf?;
        }
      } else {
        forall n | 0 <= n < |path|
          ensures !View(v, path[..n]).Leaf?
        {
          assert n == 0 || path[..n][0] == path[0];
        }
      }
    }
  }

  /** What a merge shows at any path, whatever the shapes. */
  lemma {:induction false} MergedView(x: Value, y: Value, path: seq<string>)
    ensures View(Merge(x, y), path) ==
      if Writes(y, path) then View(y, path) else if Blocks(y, path) then Absent else View(x, path)
    decreases |path|
  {
    if path != [] && x.Dict? && y.Dict? {
      var k := path[0];
      MergedAt(x, y, k);
      if k in x.fields && k in y.fields {
        MergedView(x.fields[k], y.fields[k], path[1..]);
      }
    }
  }

  lemma {:induction false} BlockedIsAbsent(v: Value, path: seq<string>)
    requires Blocks(v, path)
    ensures View(v, path) == Absent
    decreases |path|
  {
    if v.Dict? {
      BlockedIsAbsent(v.fields[path[0]], path[1..]);
    }
  }

  /** Whatever a fragment has at the path and a later one blocks, one after that writes
      again. */
  ghost predicate WrittenAgain(fragments: seq<map<string, Value>>, path: seq<string>) {
    forall i, j | 0 <= i < j < |fragments| && Writes(Dict(fragments[i]), path) && Blocks(Dict(fragments[j]), path) ::
      WrittenAfter(fragments, path, j)
  }

  ghost predicate WrittenAfter(fragments: seq<map<string, Value>>, path: seq<string>, j: nat) {
    exists l :: j < l < |fragments| && Writes(Dict(fragments[l]), path)
  }

  ghost predicate SomeWrites(fragments: seq<map<string, Value>>, path: seq<string>) {
    exists i :: 0 <= i < |fragments| && Writes(Dict(fragments[i]), path)
  }

  lemma {:induction false} LastViewOfWriters(fragments: seq<map<string, Value>>, path: seq<string>)
    requires path != []
    ensures LastView(fragments, path) != Absent <==> SomeWrites(fragments, path)
    decreases |fragments|
  {
    if fragments != [] {
      var init, f := fragments[..|fragments| - 1], fragments[|fragments| - 1];
      LastViewOfWriters(init, path);
      if i :| 0 <= i < |init| && Writes(Dict(init[i]), path) {
        assert Writes(Dict(fragments[i]), path);
      }
      if i :| 0 <= i < |fragments| && Writes(Dict(fragments[i]), path) {
        assert i < |init| ==> Writes(Dict(init[i]), path);
      }
    }
  }

  /** The condition when one more fragment comes. */
  lemma WrittenAgainSnoc(init: seq<map<string, Value>>, f: map<string, Value>, path: seq<string>)
    ensures WrittenAgain(init + [f], path) <==>
      Writes(Dict(f), path) || (if Blocks(Dict(f), path) then !SomeWrites(init, path) else WrittenAgain(init, path))
  {
    var all, n := init + [f], |init|;
    assert forall i | 0 <= i < n :: all[i] == init[i];
    assert all[n] == f;
    if Writes(Dict(f), path) {
      forall i, j | 0 <= i < j < |all| && Writes(Dict(all[i]), path) && Blocks(Dict(all[j]), path)
        ensures WrittenAfter(all, path, j)
      {
        BlockedIsAbsent(Dict(all[j]), path);
        assert j < n && Writes(Dict(all[n]), path);
      }
    } else if Blocks(Dict(f), path) {
      BlockedByLast(init, f, path);
    } else {
      NothingNew(init, f, path);
    }
  }

  lemma BlockedByLast(init: seq<map<string, Value>>, f: map<string, Value>, path: seq<string>)
    requires Blocks(Dict(f), path)
    ensures WrittenAgain(init + [f], path) <==> !SomeWrites(init, path)
  {
    var all, n := init + [f], |init|;
    BlockedIsAbsent(Dict(f), path);
    if i :| 0 <= i < n && Writes(Dict(init[i]), path) {
      assert all[i] == init[i] && all[n] == f && !WrittenAfter(all, path, n);
    } else {
      forall i | 0 <= i < |all|
        ensures !Writes(Dict(all[i]), path)
      {
        assert i < n ==> all[i] == init[i];
      }
    }
  }

  lemma NothingNew(init: seq<map<string, Value>>, f: map<string, Value>, path: seq<string>)
    requires !Writes(Dict(f), path) && !Blocks(Dict(f), path)
    ensures WrittenAgain(init + [f], path) <==> WrittenAgain(init, path)
  {
    var all, n := init + [f], |init|;
    forall j | 0 <= j < n
      ensures WrittenAfter(all, path, j) <==> WrittenAfter(init, path, j)
    {
      if l :| j < l < |all| && Writes(Dict(all[l]), path) {
        assert l < n && all[l] == init[l];
      }
      if l :| j < l < n && Writes(Dict(init[l]), path) {
        assert all[l] == init[l];
      }
    }
    assert forall i | 0 <= i < n :: all[i] == init[i];
    assert all[n] == f;
  }

  lemma {:induction false} FoldAtPathIff(fragments: seq<map<string, Value>>, path: seq<string>)
    ensures View(Folded(fragments), path) == LastView(fragments, path) <==> WrittenAgain(fragments, path)
    decreases |fragments|
  {
    if fragments != [] {
      var init, f := fragments[..|fragments| - 1], fragments[|fragments| - 1];
      FoldAtPathIff(init, path);
      MergedView(Folded(init), Dict(f), path);
      assert fragments == init + [f];
      WrittenAgainSnoc(init, f, path);
      if path != [] {
        LastViewOfWriters(init, path);
      }
    }
  }

  predicate ShowsLastWriter(fragments: seq<map<string, Value>>, path: seq<string>) {
    View(Folded(fragments), path) == LastView(fragments, path)
  }

  /** The fold over any fragments is path-wise last-writer-wins if and only if whatever is
      buried under a leaf is written again later. */
  lemma FoldIsLastWriterWinsIff(fragments: seq<map<string, Value>>)
    ensures (forall path :: ShowsLastWriter(fragments, path)) <==> forall path :: WrittenAgain(fragments, path)
  {
    forall path
      ensures ShowsLastWriter(fragments, path) <==> WrittenAgain(fragments, path)
    {
      FoldAtPathIff(fragments, path);
    }
  }
}
