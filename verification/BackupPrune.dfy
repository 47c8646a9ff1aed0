/**
 Retention pruning of the backup index (archive/project-mytool/cmd/tent/backup.go).  Times
 and durations are nanoseconds.
 */
module BackupPrune {
  import opened Sequences

  datatype Backup = Backup(id: string, sandbox: string, createdAt: int, sizeBytes: int)

  /** --keep, --older-than and --sandbox; an empty sandbox means all of them. */
  datatype Policy = Policy(keep: int, olderThan: int, sandbox: string)

  predicate Targeted(policy: Policy, sandbox: string) {
    policy.sandbox == "" || sandbox == policy.sandbox
  }

  predicate TooOld(policy: Policy, now: int, b: Backup) {
    policy.olderThan > 0 && now - b.createdAt > policy.olderThan
  }

  /** Is the i-th newest backup of a group deleted? */
  predicate Doomed(policy: Policy, now: int, b: Backup, i: nat) {
    TooOld(policy, now, b) || (policy.keep > 0 && i >= policy.keep)
  }

  function GroupOf(bs: seq<Backup>, sandbox: string): seq<Backup> {
    if bs == [] then []
    else GroupOf(bs[..|bs| - 1], sandbox) + (if bs[|bs| - 1].sandbox == sandbox then [bs[|bs| - 1]] else [])
  }

  ghost predicate NewestFirst(bs: seq<Backup>) {
    forall i, j | 0 <= i < j < |bs| :: bs[i].createdAt >= bs[j].createdAt
  }

  function Deleted(policy: Policy, now: int, order: seq<Backup>): seq<Backup> {
    if order == [] then []
    else
      var n := |order| - 1;
      Deleted(policy, now, order[..n]) + (if Doomed(policy, now, order[n], n) then [order[n]] else [])
  }

  function Retained(policy: Policy, now: int, order: seq<Backup>): seq<Backup> {
    if order == [] then []
    else
      var n := |order| - 1;
      Retained(policy, now, order[..n]) + (if Doomed(policy, now, order[n], n) then [] else [order[n]])
  }

  /** `order` is a way to put the group newest first; equal times may come in any order. */
  ghost predicate Ordering(group: seq<Backup>, order: seq<Backup>) {
    NewestFirst(order) && multiset(order) == multiset(group)
  }

  ghost predicate GroupSplit(policy: Policy, now: int, sandbox: string, group: seq<Backup>, del: seq<Backup>, ret: seq<Backup>) {
    if !Targeted(policy, sandbox) then del == [] && ret == group
    else exists order :: Ordering(group, order) && del == Deleted(policy, now, order) && ret == Retained(policy, now, order)
  }

  /** What the command makes of the index, sandbox by sandbox. */
  ghost predicate Split(policy: Policy, now: int, bs: seq<Backup>, del: seq<Backup>, ret: seq<Backup>) {
    forall s :: GroupSplit(policy, now, s, GroupOf(bs, s), GroupOf(del, s), GroupOf(ret, s))
  }

  // ---------------------------------------------------------------------------
  // The command's loops
  // ---------------------------------------------------------------------------

  lemma {:induction false} GroupOfJoin(a: seq<Backup>, b: seq<Backup>, s: string)
    ensures GroupOf(a + b, s) == GroupOf(a, s) + GroupOf(b, s)
    decreases |b|
  {
    if b == [] {
      assert a + b == a;
    } else {
      var n := |b| - 1;
      assert (a + b)[..|a + b| - 1] == a + b[..n];
      GroupOfJoin(a, b[..n], s);
    }
  }

  lemma {:induction false} GroupOfUniform(bs: seq<Backup>, of: string, s: string)
    requires forall b | b in bs :: b.sandbox == of
    ensures GroupOf(bs, s) == if s == of then bs else []
  {
    if bs != [] {
      GroupOfUniform(bs[..|bs| - 1], of, s);
      assert bs[|bs| - 1] in bs;
    }
  }

  lemma {:induction false} GroupMembers(bs: seq<Backup>, s: string)
    ensures forall b | b in GroupOf(bs, s) :: b.sandbox == s && b in bs
  {
    if bs != [] {
      GroupMembers(bs[..|bs| - 1], s);
    }
  }

  lemma {:induction false} GroupOfAbsent(bs: seq<Backup>, s: string)
    requires forall b | b in bs :: b.sandbox != s
    ensures GroupOf(bs, s) == []
  {
    if bs != [] {
      GroupOfAbsent(bs[..|bs| - 1], s);
      assert bs[|bs| - 1] in bs;
    }
  }

  ghost predicate Grouped(bs: seq<Backup>, groups: map<string, seq<Backup>>) {
    && (forall b | b in bs :: b.sandbox in groups)
    && forall s | s in groups :: groups[s] == GroupOf(bs, s)
  }

  method GroupBySandbox(bs: seq<Backup>) returns (groups: map<string, seq<Backup>>)
    ensures Grouped(bs, groups)
  {
    groups := map[];
    var i := 0;
    while i < |bs|
      invariant 0 <= i <= |bs| && Grouped(bs[..i], groups)
    {
      var b := bs[i];
      ghost var before := groups;
      groups := groups[b.sandbox := (if b.sandbox in groups then groups[b.sandbox] else []) + [b]];
      GroupGrows(bs, i, before);
      i := i + 1;
    }
    assert bs[..i] == bs;
  }

  lemma GroupGrows(bs: seq<Backup>, i: nat, groups: map<string, seq<Backup>>)
    requires i < |bs| && Grouped(bs[..i], groups)
    ensures var s := bs[i].sandbox;
      Grouped(bs[..i + 1], groups[s := (if s in groups then groups[s] else []) + [bs[i]]])
  {
    var s := bs[i].sandbox;
    assert bs[..i + 1][..i] == bs[..i];
    if s !in groups {
      GroupOfAbsent(bs[..i], s);
    }
  }

  /** sort.Slice by creation time, newest first.  Only what its contract promises is used:
      the order of equal times is open. */
  method SortNewestFirst(bs: seq<Backup>) returns (order: seq<Backup>)
    ensures Ordering(bs, order)
  {
    order := [];
    var i := 0;
    while i < |bs|
      invariant 0 <= i <= |bs| && Ordering(bs[..i], order)
    {
      assert bs[..i + 1] == bs[..i] + [bs[i]];
      order := InsertNewestFirst(order, bs[i]);
      i := i + 1;
    }
    assert bs[..i] == bs;
  }

  method InsertNewestFirst(order: seq<Backup>, b: Backup) returns (longer: seq<Backup>)
    requires NewestFirst(order)
    ensures NewestFirst(longer) && multiset(longer) == multiset(order) + multiset{b}
  {
    var k := 0;
    while k < |order| && order[k].createdAt >= b.createdAt
      invariant 0 <= k <= |order| && forall j | 0 <= j < k :: order[j].createdAt >= b.createdAt
    {
      k := k + 1;
    }
    longer := order[..k] + [b] + order[k..];
    Inserted(order, b, k);
    InsertedMembers(order, b, k);
  }

  lemma Inserted(order: seq<Backup>, b: Backup, k: nat)
    requires NewestFirst(order) && k <= |order|
    requires forall j | 0 <= j < k :: order[j].createdAt >= b.createdAt
    requires k < |order| ==> order[k].createdAt < b.createdAt
    ensures NewestFirst(order[..k] + [b] + order[k..])
  {
    var t := order[..k] + [b] + order[k..];
    forall i, j | 0 <= i < j < |t|
      ensures t[i].createdAt >= t[j].createdAt
    {
      var x := if i < k then order[i] else if i == k then b else order[i - 1];
      var y := if j < k then order[j] else if j == k then b else order[j - 1];
      assert t[i] == x && t[j] == y;
    }
  }

  lemma InsertedMembers(order: seq<Backup>, b: Backup, k: nat)
    requires k <= |order|
    ensures multiset(order[..k] + [b] + order[k..]) == multiset(order) + multiset{b}
  {
    assert order == order[..k] + order[k..];
  }

  /** Groups the index, sorts each targeted group and splits it; the groups come in no
      particular order. */
  method SplitIndex(policy: Policy, now: int, bs: seq<Backup>) returns (toDelete: seq<Backup>, remaining: seq<Backup>)
    ensures Split(policy, now, bs, toDelete, remaining)
  {
    toDelete, remaining := [], [];
    var groups := GroupBySandbox(bs);
    var todo := groups.Keys;
    while todo != {}
      invariant todo <= groups.Keys
      invariant SplitOn(policy, now, bs, toDelete, remaining, groups.Keys - todo)
      decreases todo
    {
      var sbx :| sbx in todo;
      var d, r := SplitGroup(policy, now, sbx, groups[sbx]);
      GroupMembers(bs, sbx);
      AnotherGroup(policy, now, bs, toDelete, remaining, groups.Keys - todo, sbx, d, r);
      toDelete, remaining := toDelete + d, remaining + r;
      DoneGrows(groups.Keys, todo, sbx);
      todo := todo - {sbx};
    }
    assert groups.Keys - todo == groups.Keys;
    WholeIndex(policy, now, bs, toDelete, remaining, groups);
  }

  lemma DoneGrows(all: set<string>, todo: set<string>, s: string)
    requires s in todo && todo <= all
    ensures all - (todo - {s}) == (all - todo) + {s}
  {
  }

  method SplitGroup(policy: Policy, now: int, sandbox: string, group: seq<Backup>) returns (d: seq<Backup>, r: seq<Backup>)
    ensures GroupSplit(policy, now, sandbox, group, d, r)
  {
    if policy.sandbox != "" && sandbox != policy.sandbox {
      return [], group;
    }
    var order := SortNewestFirst(group);
    d, r := [], [];
    var i := 0;
    while i < |order|
      invariant 0 <= i <= |order|
      invariant d == Deleted(policy, now, order[..i]) && r == Retained(policy, now, order[..i])
    {
      var b := order[i];
      var shouldDelete := false;
      if policy.olderThan > 0 && now - b.createdAt > policy.olderThan {
        shouldDelete := true;
      }
      if policy.keep > 0 && i >= policy.keep {
        shouldDelete := true;
      }
      assert order[..i + 1][..i] == order[..i];
      if shouldDelete {
        d := d + [b];
      } else {
        r := r + [b];
      }
      i := i + 1;
    }
    assert order[..i] == order;
  }

  /** The split so far: the sandboxes in `done` are split, no other is touched. */
  ghost predicate SplitOn(policy: Policy, now: int, bs: seq<Backup>, del: seq<Backup>, ret: seq<Backup>, done: set<string>) {
    forall s :: SplitAt(policy, now, bs, del, ret, s, s in done)
  }

  ghost predicate SplitAt(policy: Policy, now: int, bs: seq<Backup>, del: seq<Backup>, ret: seq<Backup>, s: string, done: bool) {
    if done then GroupSplit(policy, now, s, GroupOf(bs, s), GroupOf(del, s), GroupOf(ret, s))
    else GroupOf(del, s) == [] && GroupOf(ret, s) == []
  }

  /** One more backup at the old end of the order. */
  lemma SplitLast(policy: Policy, now: int, order: seq<Backup>, b: Backup)
    ensures Doomed(policy, now, b, |order|) ==>
      && Deleted(policy, now, order + [b]) == Deleted(policy, now, order) + [b]
      && Retained(policy, now, order + [b]) == Retained(policy, now, order)
    ensures !Doomed(policy, now, b, |order|) ==>
      && Deleted(policy, now, order + [b]) == Deleted(policy, now, order)
      && Retained(policy, now, order + [b]) == Retained(policy, now, order) + [b]
  {
    assert (order + [b])[..|order|] == order;
  }

  lemma {:induction false} SplitMembers(policy: Policy, now: int, order: seq<Backup>)
    ensures multiset(Deleted(policy, now, order)) + multiset(Retained(policy, now, order)) == multiset(order)
  {
    if order != [] {
      var init, b := order[..|order| - 1], order[|order| - 1];
      SplitMembers(policy, now, init);
      assert order == init + [b];
      SplitLast(policy, now, init, b);
    }
  }

  lemma GroupSplitConserves(policy: Policy, now: int, s: string, group: seq<Backup>, d: seq<Backup>, r: seq<Backup>)
    requires GroupSplit(policy, now, s, group, d, r)
    ensures multiset(d) + multiset(r) == multiset(group)
  {
    if Targeted(policy, s) {
      var order :| Ordering(group, order) && d == Deleted(policy, now, order) && r == Retained(policy, now, order);
      SplitMembers(policy, now, order);
    }
  }

  lemma SplitOfOneSandbox(policy: Policy, now: int, s: string, group: seq<Backup>, d: seq<Backup>, r: seq<Backup>)
    requires GroupSplit(policy, now, s, group, d, r) && forall b | b in group :: b.sandbox == s
    ensures forall b | b in d || b in r :: b.sandbox == s
  {
    GroupSplitConserves(policy, now, s, group, d, r);
    forall b | b in d || b in r
      ensures b.sandbox == s
    {
      assert b in multiset(d) + multiset(r);
      assert b in group;
    }
  }

  lemma AnotherGroup(policy: Policy, now: int, bs: seq<Backup>, del: seq<Backup>, ret: seq<Backup>, done: set<string>,
                     sbx: string, d: seq<Backup>, r: seq<Backup>)
    requires SplitOn(policy, now, bs, del, ret, done) && sbx !in done
    requires GroupSplit(policy, now, sbx, GroupOf(bs, sbx), d, r)
    requires forall b | b in GroupOf(bs, sbx) :: b.sandbox == sbx
    ensures SplitOn(policy, now, bs, del + d, ret + r, done + {sbx})
  {
    SplitOfOneSandbox(policy, now, sbx, GroupOf(bs, sbx), d, r);
    forall s: string
      ensures SplitAt(policy, now, bs, del + d, ret + r, s, s in done + {sbx})
    {
      assert SplitAt(policy, now, bs, del, ret, s, s in done);
      GroupAppended(del, d, sbx, s);
      GroupAppended(ret, r, sbx, s);
    }
  }

  lemma GroupAppended(bs: seq<Backup>, more: seq<Backup>, sbx: string, s: string)
    requires forall b | b in more :: b.sandbox == sbx
    ensures GroupOf(bs + more, s) == if s == sbx then GroupOf(bs, s) + more else GroupOf(bs, s)
  {
    GroupOfJoin(bs, more, s);
    GroupOfUniform(more, sbx, s);
  }

  lemma WholeIndex(policy: Policy, now: int, bs: seq<Backup>, del: seq<Backup>, ret: seq<Backup>, groups: map<string, seq<Backup>>)
    requires Grouped(bs, groups) && SplitOn(policy, now, bs, del, ret, groups.Keys)
    ensures Split(policy, now, bs, del, ret)
  {
    forall s
      ensures GroupSplit(policy, now, s, GroupOf(bs, s), GroupOf(del, s), GroupOf(ret, s))
    {
      assert SplitAt(policy, now, bs, del, ret, s, s in groups);
      if s !in groups {
        GroupOfAbsent(bs, s);
        assert GroupOf(del, s) == [] && GroupOf(ret, s) == [];
        assert Ordering([], []) && Deleted(policy, now, []) == [] && Retained(policy, now, []) == [];
      }
    }
  }

  // ---------------------------------------------------------------------------
  // What a split promises
  // ---------------------------------------------------------------------------

  lemma {:induction false} CountInGroup(bs: seq<Backup>, b: Backup)
    ensures multiset(GroupOf(bs, b.sandbox))[b] == multiset(bs)[b]
  {
    if bs != [] {
      var n := |bs| - 1;
      CountInGroup(bs[..n], b);
      assert bs == bs[..n] + [bs[n]];
    }
  }

  /** Nothing is lost and nothing made up. */
  lemma SplitConserves(policy: Policy, now: int, bs: seq<Backup>, del: seq<Backup>, ret: seq<Backup>)
    requires Split(policy, now, bs, del, ret)
    ensures multiset(bs) == multiset(del) + multiset(ret)
  {
    forall b: Backup
      ensures multiset(bs)[b] == multiset(del)[b] + multiset(ret)[b]
    {
      var s := b.sandbox;
      CountInGroup(bs, b);
      CountInGroup(del, b);
      CountInGroup(ret, b);
      GroupSplitConserves(policy, now, s, GroupOf(bs, s), GroupOf(del, s), GroupOf(ret, s));
    }
  }

  /** Whatever is older than a doomed backup is doomed too. */
  lemma DoomedStay(policy: Policy, now: int, order: seq<Backup>, i: nat, j: nat)
    requires NewestFirst(order) && i <= j < |order| && Doomed(policy, now, order[i], i)
    ensures Doomed(policy, now, order[j], j)
  {
  }

  /** From a doomed backup on, the next one in newest-first order is doomed as well. */
  lemma LastOfSplit(policy: Policy, now: int, r: seq<Backup>, d: seq<Backup>, b: Backup)
    requires NewestFirst((r + d) + [b]) && (d != [] ==> Doomed(policy, now, d[0], |r|))
    ensures (r + d) + [b] == r + (d + [b])
    ensures d != [] ==> Doomed(policy, now, b, |r + d|)
  {
    var order := (r + d) + [b];
    if d != [] {
      assert order[|r|] == d[0] && order[|r + d|] == b;
      DoomedStay(policy, now, order, |r|, |r + d|);
    }
  }

  /** In newest-first order the retained backups come before the deleted ones. */
  lemma {:induction false} RetainedThenDeleted(policy: Policy, now: int, order: seq<Backup>)
    requires NewestFirst(order)
    ensures order == Retained(policy, now, order) + Deleted(policy, now, order)
    ensures Deleted(policy, now, order) != [] ==> Doomed(policy, now, Deleted(policy, now, order)[0], |Retained(policy, now, order)|)
  {
    if order != [] {
      var init, b := order[..|order| - 1], order[|order| - 1];
      RetainedThenDeleted(policy, now, init);
      assert order == init + [b];
      OneMoreSplit(policy, now, init, b);
    }
  }

  lemma OneMoreSplit(policy: Policy, now: int, init: seq<Backup>, b: Backup)
    requires NewestFirst(init + [b]) && init == Retained(policy, now, init) + Deleted(policy, now, init)
    requires Deleted(policy, now, init) != [] ==> Doomed(policy, now, Deleted(policy, now, init)[0], |Retained(policy, now, init)|)
    ensures var order := init + [b];
      && order == Retained(policy, now, order) + Deleted(policy, now, order)
      && (Deleted(policy, now, order) != [] ==> Doomed(policy, now, Deleted(policy, now, order)[0], |Retained(policy, now, order)|))
  {
    var r, d := Retained(policy, now, init), Deleted(policy, now, init);
    LastOfSplit(policy, now, r, d, b);
    SplitLast(policy, now, init, b);
    if !Doomed(policy, now, b, |init|) {
      assert d == [];
      assert init + [b] == (r + [b]) + d;
    }
  }

  lemma {:induction false} RetainedYoung(policy: Policy, now: int, order: seq<Backup>)
    ensures forall b | b in Retained(policy, now, order) :: !TooOld(policy, now, b)
  {
    if order != [] {
      RetainedYoung(policy, now, order[..|order| - 1]);
    }
  }

  /** How many backups of a group are young enough. */
  function YoungCount(policy: Policy, now: int, group: seq<Backup>): nat {
    if group == [] then 0
    else YoungCount(policy, now, group[..|group| - 1]) + (if TooOld(policy, now, group[|group| - 1]) then 0 else 1)
  }

  lemma {:induction false} RetainsAllItMay(policy: Policy, now: int, order: seq<Backup>)
    requires NewestFirst(order)
    ensures var y := YoungCount(policy, now, order);
      |Retained(policy, now, order)| == if 0 < policy.keep < y then policy.keep else y
  {
    if order != [] {
      var n := |order| - 1;
      RetainsAllItMay(policy, now, order[..n]);
      YoungAreFirst(policy, now, order);
      RetainedThenDeleted(policy, now, order[..n]);
    }
  }

  lemma {:induction false} YoungAreFirst(policy: Policy, now: int, order: seq<Backup>)
    requires NewestFirst(order)
    ensures YoungCount(policy, now, order) <= |order|
    ensures order != [] && !TooOld(policy, now, order[|order| - 1]) ==> YoungCount(policy, now, order) == |order|
  {
    if order != [] {
      var n := |order| - 1;
      YoungAreFirst(policy, now, order[..n]);
      if n > 0 {
        assert order[n - 1].createdAt >= order[n].createdAt;
      }
    }
  }

  lemma {:induction false} YoungCountOfMultiset(policy: Policy, now: int, a: seq<Backup>, b: seq<Backup>)
    requires multiset(a) == multiset(b)
    ensures YoungCount(policy, now, a) == YoungCount(policy, now, b)
    decreases |a|
  {
    assert |multiset(a)| == |a| && |multiset(b)| == |b|;
    if a != [] {
      var n := |a| - 1;
      var i := OneOfEach(a, n, b);
      assert a[..n] + a[n + 1..] == a[..n];
      YoungCountDrop(policy, now, b, i);
      YoungCountOfMultiset(policy, now, a[..n], b[..i] + b[i + 1..]);
    }
  }

  lemma {:induction false} YoungCountJoin(policy: Policy, now: int, a: seq<Backup>, b: seq<Backup>)
    ensures YoungCount(policy, now, a + b) == YoungCount(policy, now, a) + YoungCount(policy, now, b)
    decreases |b|
  {
    if b == [] {
      assert a + b == a;
    } else {
      var n := |b| - 1;
      assert (a + b)[..|a + b| - 1] == a + b[..n];
      YoungCountJoin(policy, now, a, b[..n]);
    }
  }

  lemma YoungCountDrop(policy: Policy, now: int, b: seq<Backup>, i: nat)
    requires i < |b|
    ensures YoungCount(policy, now, b) == YoungCount(policy, now, b[..i] + b[i + 1..]) + (if TooOld(policy, now, b[i]) then 0 else 1)
  {
    assert b == b[..i] + ([b[i]] + b[i + 1..]);
    YoungCountJoin(policy, now, b[..i], [b[i]] + b[i + 1..]);
    YoungCountJoin(policy, now, [b[i]], b[i + 1..]);
    YoungCountJoin(policy, now, b[..i], b[i + 1..]);
    assert YoungCount(policy, now, []) == 0 && [b[i]][..0] == [];
  }

  /** Sandboxes that are not targeted keep everything, in order. */
  lemma UntargetedUntouched(policy: Policy, now: int, bs: seq<Backup>, del: seq<Backup>, ret: seq<Backup>, s: string)
    requires Split(policy, now, bs, del, ret) && policy.sandbox != "" && s != policy.sandbox
    ensures GroupOf(del, s) == [] && GroupOf(ret, s) == GroupOf(bs, s)
  {
    assert GroupSplit(policy, now, s, GroupOf(bs, s), GroupOf(del, s), GroupOf(ret, s));
  }

  /** In a targeted sandbox, as many backups are retained as the limits allow: all young
      ones, or `keep` of them. */
  lemma RetainedCount(policy: Policy, now: int, bs: seq<Backup>, del: seq<Backup>, ret: seq<Backup>, s: string)
    requires Split(policy, now, bs, del, ret) && (policy.sandbox == "" || s == policy.sandbox)
    ensures var y := YoungCount(policy, now, GroupOf(bs, s));
      |GroupOf(ret, s)| == if 0 < policy.keep < y then policy.keep else y
  {
    var order := OrderOf(policy, now, bs, del, ret, s);
    RetainsAllItMay(policy, now, order);
    YoungCountOfMultiset(policy, now, order, GroupOf(bs, s));
  }

  lemma OrderOf(policy: Policy, now: int, bs: seq<Backup>, del: seq<Backup>, ret: seq<Backup>, s: string) returns (order: seq<Backup>)
    requires Split(policy, now, bs, del, ret) && Targeted(policy, s)
    ensures Ordering(GroupOf(bs, s), order)
    ensures GroupOf(del, s) == Deleted(policy, now, order) && GroupOf(ret, s) == Retained(policy, now, order)
  {
    assert GroupSplit(policy, now, s, GroupOf(bs, s), GroupOf(del, s), GroupOf(ret, s));
    order :| Ordering(GroupOf(bs, s), order) && GroupOf(del, s) == Deleted(policy, now, order) && GroupOf(ret, s) == Retained(policy, now, order);
  }

  /** The retained backups of a targeted sandbox are a prefix of a newest-first order, and
      the deleted ones the rest. */
  lemma RetainedIsPrefix(policy: Policy, now: int, bs: seq<Backup>, del: seq<Backup>, ret: seq<Backup>, s: string)
    requires Split(policy, now, bs, del, ret) && (policy.sandbox == "" || s == policy.sandbox)
    ensures Ordering(GroupOf(bs, s), GroupOf(ret, s) + GroupOf(del, s))
    ensures forall b | b in GroupOf(ret, s) :: !TooOld(policy, now, b)
    ensures forall b, c | b in GroupOf(ret, s) && c in GroupOf(del, s) :: b.createdAt >= c.createdAt
  {
    var order := OrderOf(policy, now, bs, del, ret, s);
    SplitOfOrder(policy, now, order);
  }

  lemma SplitOfOrder(policy: Policy, now: int, order: seq<Backup>)
    requires NewestFirst(order)
    ensures Retained(policy, now, order) + Deleted(policy, now, order) == order
    ensures forall b | b in Retained(policy, now, order) :: !TooOld(policy, now, b)
    ensures forall b, c | b in Retained(policy, now, order) && c in Deleted(policy, now, order) :: b.createdAt >= c.createdAt
  {
    RetainedThenDeleted(policy, now, order);
    RetainedYoung(policy, now, order);
    var r, d := Retained(policy, now, order), Deleted(policy, now, order);
    forall b, c | b in r && c in d
      ensures b.createdAt >= c.createdAt
    {
      var i :| 0 <= i < |r| && r[i] == b;
      var j :| 0 <= j < |d| && d[j] == c;
      assert order[i] == b && order[|r| + j] == c;
    }
  }

  /** A backup of a targeted sandbox is deleted only if it is over the age, or `keep` others
      that are no older are retained. */
  lemma {:induction false} DeletedForCause(policy: Policy, now: int, order: seq<Backup>)
    requires NewestFirst(order)
    ensures forall b | b in Deleted(policy, now, order) ::
      TooOld(policy, now, b) || (policy.keep > 0 && |Retained(policy, now, order)| == policy.keep)
  {
    if order != [] {
      var n := |order| - 1;
      DeletedForCause(policy, now, order[..n]);
      RetainsAllItMay(policy, now, order[..n]);
      RetainsAllItMay(policy, now, order);
      YoungAreFirst(policy, now, order);
    }
  }

  /** What pruning does to each sandbox: one that is not asked for keeps everything.  Of any
      other, the newest backups are retained: none over the age, no more than `keep`; and
      nothing is deleted unless it is over the age or `keep` are retained already. */
  lemma PruneExact(policy: Policy, now: int, bs: seq<Backup>, del: seq<Backup>, ret: seq<Backup>, s: string)
    requires Split(policy, now, bs, del, ret)
    ensures var d, r := GroupOf(del, s), GroupOf(ret, s);
      if policy.sandbox != "" && s != policy.sandbox then d == [] && r == GroupOf(bs, s)
      else
        && NewestFirst(r + d) && multiset(r + d) == multiset(GroupOf(bs, s))
        && (policy.olderThan > 0 ==> forall b | b in r :: now - b.createdAt <= policy.olderThan)
        && (policy.keep > 0 ==> |r| <= policy.keep)
        && forall b | b in d ::
             (policy.olderThan > 0 && now - b.createdAt > policy.olderThan) || (policy.keep > 0 && |r| == policy.keep)
  {
    if policy.sandbox != "" && s != policy.sandbox {
      UntargetedUntouched(policy, now, bs, del, ret, s);
    } else {
      RetainedIsPrefix(policy, now, bs, del, ret, s);
      RetainedCount(policy, now, bs, del, ret, s);
      var order := OrderOf(policy, now, bs, del, ret, s);
      DeletedForCause(policy, now, order);
    }
  }

  /** With --sandbox only backups of that sandbox are deleted. */
  lemma OnlyNamedDeleted(policy: Policy, now: int, bs: seq<Backup>, del: seq<Backup>, ret: seq<Backup>)
    requires Split(policy, now, bs, del, ret) && policy.sandbox != ""
    ensures forall b | b in del :: b.sandbox == policy.sandbox && b in bs
  {
    SplitConserves(policy, now, bs, del, ret);
    forall b | b in del
      ensures b.sandbox == policy.sandbox && b in bs
    {
      CountInGroup(del, b);
      assert b in multiset(del) + multiset(ret);
      if b.sandbox != policy.sandbox {
        UntargetedUntouched(policy, now, bs, del, ret, b.sandbox);
      }
    }
  }

  lemma {:induction false} NoneTooOldAllYoung(policy: Policy, now: int, g: seq<Backup>)
    requires forall b | b in g :: !TooOld(policy, now, b)
    ensures YoungCount(policy, now, g) == |g|
  {
    if g != [] {
      NoneTooOldAllYoung(policy, now, g[..|g| - 1]);
      assert g[|g| - 1] in g;
    }
  }

  /** Pruning the result again at the same time deletes nothing, however ties are sorted. */
  lemma PruneIdempotent(policy: Policy, now: int, bs: seq<Backup>, del: seq<Backup>, ret: seq<Backup>, del': seq<Backup>, ret': seq<Backup>)
    requires Split(policy, now, bs, del, ret) && Split(policy, now, ret, del', ret')
    ensures del' == [] && multiset(ret') == multiset(ret)
  {
    forall b: Backup
      ensures multiset(del')[b] == 0
    {
      NothingMoreDeleted(policy, now, bs, del, ret, del', ret', b.sandbox);
      CountInGroup(del', b);
    }
    assert |multiset(del')| == |del'|;
    SplitConserves(policy, now, ret, del', ret');
  }

  lemma NothingMoreDeleted(policy: Policy, now: int, bs: seq<Backup>, del: seq<Backup>, ret: seq<Backup>,
                           del': seq<Backup>, ret': seq<Backup>, s: string)
    requires Split(policy, now, bs, del, ret) && Split(policy, now, ret, del', ret')
    ensures GroupOf(del', s) == []
  {
    if Targeted(policy, s) {
      RetainedIsPrefix(policy, now, bs, del, ret, s);
      RetainedCount(policy, now, bs, del, ret, s);
      RetainedCount(policy, now, ret, del', ret', s);
      NoneTooOldAllYoung(policy, now, GroupOf(ret, s));
      var order := OrderOf(policy, now, ret, del', ret', s);
      RetainedThenDeleted(policy, now, order);
      assert |multiset(order)| == |order| && |multiset(GroupOf(ret, s))| == |GroupOf(ret, s)|;
    } else {
      UntargetedUntouched(policy, now, ret, del', ret', s);
    }
  }

  // ---------------------------------------------------------------------------
  // The command
  // ---------------------------------------------------------------------------

  const DAY: int := 86_400_000_000_000

  /** time.Duration(days) * 24 * time.Hour in 64 bits. */
  function OlderThan(days: int): (d: int)
    ensures -0x8000_0000_0000_0000 <= d < 0x8000_0000_0000_0000
  {
    (days * DAY + 0x8000_0000_0000_0000) % 0x1_0000_0000_0000_0000 - 0x8000_0000_0000_0000
  }

  /** The age limit is the number of days asked for up to 106751 days and no further. */
  lemma AgeLimitIff(days: int)
    requires days > 0
    ensures OlderThan(days) == days * 86_400_000_000_000 <==> days <= 106_751
  {
  }

  /** Beyond that it wraps around: 213504 days mean less than half an hour. */
  lemma AgeLimitWraps()
    ensures 0 < OlderThan(213_504) < DAY / 48
  {
  }

  /** --older-than as given: absent, not a number of days, or a number. */
  datatype Age = NoAge | BadAge | Days(n: int)

  datatype Request = Request(keep: int, age: Age, sandbox: string, dryRun: bool, json: bool)

  datatype Reply =
    | Refused
    | Report(deleted: seq<Backup>, retained: nat)
    | NothingToPrune
    | WouldPrune(deleted: seq<Backup>)
    | SaveFailed
    | Pruned(count: nat, freed: int)

  function ArchiveName(b: Backup): string {
    b.sandbox + "-" + b.id + ".tar.gz"
  }

  function ArchivesOf(bs: seq<Backup>): set<string> {
    set b | b in bs :: ArchiveName(b)
  }

  function TotalSize(bs: seq<Backup>): int {
    if bs == [] then 0 else TotalSize(bs[..|bs| - 1]) + bs[|bs| - 1].sizeBytes
  }

  function PolicyOf(r: Request): Policy {
    Policy(r.keep, if r.age.Days? then OlderThan(r.age.n) else 0, r.sandbox)
  }

  predicate Accepted(r: Request) {
    match r.age
    case NoAge => r.keep > 0
    case BadAge => false
    case Days(n) => n > 0
  }

  /** The backup directory: the index and the archive files. */
  class Repository {
    var backups: seq<Backup>
    var archives: set<string>

    constructor (backups: seq<Backup>, archives: set<string>)
      ensures this.backups == backups && this.archives == archives
    {
      this.backups, this.archives := backups, archives;
    }

    /** `stuck` holds the files that cannot be removed, `saves` whether the index can be
        written. */
    method Prune(r: Request, now: int, stuck: set<string>, saves: bool) returns (reply: Reply, ghost del: seq<Backup>, ghost ret: seq<Backup>)
      modifies this
      ensures reply.Refused? <==> !Accepted(r)
      ensures reply.Refused? <==> r.age.BadAge? || (r.age.NoAge? && r.keep <= 0) || (r.age.Days? && r.age.n <= 0)
      ensures Accepted(r) ==> Split(PolicyOf(r), now, old(backups), del, ret)
      ensures Accepted(r) && r.json ==> reply == Report(del, |ret|)
      ensures Accepted(r) && !r.json && del == [] ==> reply == NothingToPrune
      ensures Accepted(r) && !r.json && del != [] && r.dryRun ==> reply == WouldPrune(del)
      ensures Accepted(r) && !r.json && del != [] && !r.dryRun ==>
        reply == if saves then Pruned(|del|, TotalSize(del)) else SaveFailed
      ensures backups == if reply.Pruned? then ret else old(backups)
      ensures archives == if reply.Pruned? || reply.SaveFailed? then old(archives) - (ArchivesOf(del) - stuck) else old(archives)
    {
      del, ret := [], [];
      if r.keep <= 0 && r.age.NoAge? {
        return Refused, del, ret;
      }
      var olderThan := 0;
      if !r.age.NoAge? {
        if r.age.BadAge? || r.age.n <= 0 {
          return Refused, del, ret;
        }
        olderThan := OlderThan(r.age.n);
      }
      var toDelete, remaining := SplitIndex(Policy(r.keep, olderThan, r.sandbox), now, backups);
      del, ret := toDelete, remaining;
      if r.json {
        return Report(toDelete, |remaining|), del, ret;
      }
      if |toDelete| == 0 {
        return NothingToPrune, del, ret;
      }
      if r.dryRun {
        return WouldPrune(toDelete), del, ret;
      }
      var freed := RemoveArchives(toDelete, stuck);
      if !saves {
        return SaveFailed, del, ret;
      }
      backups := remaining;
      return Pruned(|toDelete|, freed), del, ret;
    }

    method RemoveArchives(toDelete: seq<Backup>, stuck: set<string>) returns (freed: int)
      modifies `archives
      ensures archives == old(archives) - (ArchivesOf(toDelete) - stuck)
      ensures freed == TotalSize(toDelete)
    {
      freed := 0;
      var i := 0;
      while i < |toDelete|
        invariant 0 <= i <= |toDelete| && freed == TotalSize(toDelete[..i])
        invariant archives == old(archives) - (ArchivesOf(toDelete[..i]) - stuck)
      {
        var path := ArchiveName(toDelete[i]);
        if path !in stuck {
          archives := archives - {path};
        }
        freed := freed + toDelete[i].sizeBytes;
        assert toDelete[..i + 1] == toDelete[..i] + [toDelete[i]];
        assert ArchivesOf(toDelete[..i + 1]) == ArchivesOf(toDelete[..i]) + {path};
        i := i + 1;
      }
      assert toDelete[..i] == toDelete;
    }
  }

  /** Backup ids are 12 characters, so a file name belongs to one sandbox and id. */
  lemma ArchiveNamesDiffer(a: Backup, b: Backup)
    requires |a.id| == |b.id| && ArchiveName(a) == ArchiveName(b)
    ensures a.sandbox == b.sandbox && a.id == b.id
  {
    var x := ArchiveName(a);
    var n := |a.sandbox|;
    assert |x| == |a.sandbox| + 1 + |a.id| + 7 == |b.sandbox| + 1 + |b.id| + 7;
    assert x[..n] == a.sandbox && x[..n] == b.sandbox;
    assert x[n + 1..n + 1 + |a.id|] == a.id && x[n + 1..n + 1 + |b.id|] == b.id;
  }

  /** No two entries of the index name the same backup. */
  ghost predicate Distinct(bs: seq<Backup>) {
    forall b, c | b in bs && c in bs && b.sandbox == c.sandbox && b.id == c.id :: multiset(bs)[b] == 1 && b == c
  }

  /** Deleting the pruned archives leaves every archive that a retained entry names. */
  lemma RetainedKeepArchives(policy: Policy, now: int, bs: seq<Backup>, del: seq<Backup>, ret: seq<Backup>, files: set<string>)
    requires Split(policy, now, bs, del, ret) && Distinct(bs)
    requires forall b, c | b in bs && c in bs :: |b.id| == |c.id|
    ensures forall b | b in ret && ArchiveName(b) in files :: ArchiveName(b) in files - ArchivesOf(del)
  {
    forall b, c | b in ret && c in del
      ensures ArchiveName(b) != ArchiveName(c)
    {
      ArchivesApart(policy, now, bs, del, ret, b, c);
    }
  }

  lemma ArchivesApart(policy: Policy, now: int, bs: seq<Backup>, del: seq<Backup>, ret: seq<Backup>, b: Backup, c: Backup)
    requires Split(policy, now, bs, del, ret) && Distinct(bs) && b in ret && c in del
    requires forall b, c | b in bs && c in bs :: |b.id| == |c.id|
    ensures ArchiveName(b) != ArchiveName(c)
  {
    SplitConserves(policy, now, bs, del, ret);
    assert b in multiset(del) + multiset(ret) && c in multiset(del) + multiset(ret);
    assert b in bs && c in bs;
    assert multiset(bs)[b] == multiset(del)[b] + multiset(ret)[b];
    if ArchiveName(b) == ArchiveName(c) {
      ArchiveNamesDiffer(b, c);
    }
  }
}
