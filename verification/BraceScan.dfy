/**
 _find_json_objects (core/orchestrator/loop.py): pulling brace-balanced spans out of a
 reply.  json.loads is a parameter: a partial function on texts.
 */
module BraceScan {
  import opened Wrappers
  import opened JsonGrammar
  import opened Sequences

  /** A span of the text, from `start` to before `end`. */
  datatype Span = Span(start: nat, end: nat)

  /** From inside a brace pair at the given depth: the position behind its closing brace. */
  function Close(s: string, i: nat, depth: nat): (r: Option<nat>)
    requires i <= |s|
    ensures r.Some? ==> i <= r.value <= |s|
    decreases |s| - i
  {
    if depth == 0 then Some(i)
    else if i == |s| then None
    else if s[i] == '{' then Close(s, i + 1, depth + 1)
    else if s[i] == '}' then Close(s, i + 1, depth - 1)
    else Close(s, i + 1, depth)
  }

  /** The spans the extractor considers, from position i on. */
  function Spans(s: string, i: nat): (r: seq<Span>)
    requires i <= |s|
    ensures forall k | 0 <= k < |r| :: i <= r[k].start <= r[k].end <= |s|
    decreases |s| - i
  {
    if i == |s| then []
    else if s[i] != '{' then Spans(s, i + 1)
    else
      match Close(s, i + 1, 1)
      case None => []
      case Some(e) => [Span(i, e)] + Spans(s, e)
  }

  /** The parsed spans, in order; a text that json.loads refuses is left out. */
  function Parsed<T>(s: string, spans: seq<Span>, loads: string -> Option<T>): seq<T>
    requires forall k | 0 <= k < |spans| :: spans[k].start <= spans[k].end <= |s|
  {
    if spans == [] then []
    else
      (match loads(s[spans[0].start..spans[0].end]) case None => [] case Some(v) => [v])
      + Parsed(s, spans[1..], loads)
  }

  /** What the extractor still finds from position i on. */
  function Found<T>(s: string, i: nat, loads: string -> Option<T>): seq<T>
    requires i <= |s|
  {
    Parsed(s, Spans(s, i), loads)
  }

  method FindJsonObjects<T>(text: string, loads: string -> Option<T>) returns (results: seq<T>)
    ensures results == Found(text, 0, loads)
  {
    results := [];
    var i := 0;
    ghost var all := Found(text, 0, loads);
    while i < |text|
      invariant 0 <= i <= |text|
      invariant all == results + Found(text, i, loads)
      decreases |text| - i
    {
      if text[i] == '{' {
        var start := i;
        var depth;
        i, depth := FindClose(text, start);
        if depth == 0 {
          SpanFound(text, start, i, loads);
          var parsed := loads(text[start..i]);
          if parsed.Some? {
            AppendOne(results, parsed.value, Found(text, i, loads));
            results := results + [parsed.value];
          }
        }
      } else {
        i := i + 1;
      }
    }
  }

  /** The inner loop: runs until the depth is zero or the text ends. */
  method FindClose(text: string, start: nat) returns (i: nat, depth: nat)
    requires start < |text|
    ensures start < i <= |text|
    ensures depth == 0 ==> Close(text, start + 1, 1) == Some(i)
    ensures depth > 0 ==> i == |text| && Close(text, start + 1, 1) == None
  {
    depth := 1;
    i := start + 1;
    while i < |text| && depth > 0
      invariant start < i <= |text|
      invariant Close(text, start + 1, 1) == Close(text, i, depth)
    {
      if text[i] == '{' {
        depth := depth + 1;
      } else if text[i] == '}' {
        depth := depth - 1;
      }
      i := i + 1;
    }
  }

  lemma SpanFound<T>(s: string, start: nat, e: nat, loads: string -> Option<T>)
    requires start < e <= |s| && s[start] == '{' && Close(s, start + 1, 1) == Some(e)
    ensures loads(s[start..e]).None? ==> Found(s, start, loads) == Found(s, e, loads)
    ensures loads(s[start..e]).Some? ==> Found(s, start, loads) == [loads(s[start..e]).value] + Found(s, e, loads)
  {
    var spans := Spans(s, start);
    assert spans == [Span(start, e)] + Spans(s, e) && spans[1..] == Spans(s, e);
  }

  // ---------------------------------------------------------------------------
  // What the spans are, without any scanning
  // ---------------------------------------------------------------------------

  /** The depth after reading t, starting from d: opening minus closing braces. */
  function Depth(t: string, d: int): int {
    if t == "" then d
    else Depth(t[1..], if t[0] == '{' then d + 1 else if t[0] == '}' then d - 1 else d)
  }

  /** A block: an opening brace, and the depth comes back to zero exactly at its end. */
  ghost predicate IsBlock(t: string) {
    && t != "" && t[0] == '{' && Depth(t, 0) == 0
    && forall i | 0 < i < |t| :: Depth(t[..i], 0) > 0
  }

  /** The text of gaps without opening braces with blocks between them. */
  function Interleaved(gaps: seq<string>, blocks: seq<string>, tail: string): string
    requires |gaps| == |blocks|
  {
    if gaps == [] then tail else gaps[0] + (blocks[0] + Interleaved(gaps[1..], blocks[1..], tail))
  }

  ghost predicate Gap(g: string) {
    '{' !in g
  }

  /** A tail holds no complete block: no opening brace, or one that is never closed. */
  ghost predicate Tail(t: string) {
    Gap(t) || exists g, u :: Gap(g) && t == g + (['{'] + u) && Unclosed(u)
  }

  ghost predicate Unclosed(u: string) {
    forall i | 0 <= i <= |u| :: Depth(u[..i], 1) > 0
  }

  lemma {:induction false} DepthSnoc(t: string, c: char, d: int)
    ensures Depth(t + [c], d) == Depth(t, d) + (if c == '{' then 1 else if c == '}' then -1 else 0)
    decreases |t|
  {
    if t == "" {
      assert t + [c] == [c];
    } else {
      assert (t + [c])[1..] == t[1..] + [c];
      DepthSnoc(t[1..], c, if t[0] == '{' then d + 1 else if t[0] == '}' then d - 1 else d);
    }
  }

  lemma {:induction false} DepthJoin(a: string, b: string, d: int)
    ensures Depth(a + b, d) == Depth(b, Depth(a, d))
    decreases |a|
  {
    if a == "" {
      assert a + b == b;
    } else {
      assert (a + b)[1..] == a[1..] + b;
      DepthJoin(a[1..], b, if a[0] == '{' then d + 1 else if a[0] == '}' then d - 1 else d);
    }
  }

  /** The scan closes at e exactly when the depth first comes back to zero there. */
  lemma {:induction false} CloseIsFirstZero(s: string, i: nat, depth: nat, e: nat)
    requires i <= e <= |s|
    requires Depth(s[i..e], depth) == 0
    requires forall j | i <= j < e :: Depth(s[i..j], depth) > 0
    ensures Close(s, i, depth) == Some(e)
    decreases e - i
  {
    if i < e {
      assert s[i..i] == "";
      var d := if s[i] == '{' then depth + 1 else if s[i] == '}' then depth - 1 else depth;
      var k := i + 1;
      forall j | k <= j <= e
        ensures Depth(s[k..j], d) == Depth(s[i..j], depth)
      {
        assert s[i..j][1..] == s[k..j];
      }
      assert Depth(s[i..i], depth) > 0;
      if i + 1 < e {
        assert Depth(s[i..i + 1], depth) > 0;
      }
      assert s[k..k] == "";
      forall j | k <= j < e
        ensures Depth(s[k..j], d) > 0
      {
        assert Depth(s[i..j], depth) > 0;
      }
      CloseIsFirstZero(s, k, d, e);
    } else {
      assert s[i..e] == "";
    }
  }

  lemma {:induction false} NeverCloses(s: string, i: nat, depth: nat)
    requires i <= |s| && forall j | i <= j <= |s| :: Depth(s[i..j], depth) > 0
    ensures Close(s, i, depth) == None
    decreases |s| - i
  {
    assert s[i..i] == "";
    if i < |s| {
      var d := if s[i] == '{' then depth + 1 else if s[i] == '}' then depth - 1 else depth;
      var k := i + 1;
      forall j | k <= j <= |s|
        ensures Depth(s[k..j], d) > 0
      {
        assert s[i..j][1..] == s[k..j];
      }
      assert s[k..k] == "";
      NeverCloses(s, k, d);
    }
  }

  /** Texts of the spans. */
  function Texts(s: string, spans: seq<Span>): seq<string>
    requires forall k | 0 <= k < |spans| :: spans[k].start <= spans[k].end <= |s|
  {
    if spans == [] then [] else [s[spans[0].start..spans[0].end]] + Texts(s, spans[1..])
  }

  lemma {:induction false} GapSkipped(s: string, i: nat, e: nat)
    requires i <= e <= |s| && Gap(s[i..e])
    ensures Spans(s, i) == Spans(s, e)
    decreases e - i
  {
    if i < e {
      assert s[i] in s[i..e];
      assert forall c | c in s[i + 1..e] :: c in s[i..e];
      GapSkipped(s, i + 1, e);
    }
  }

  lemma BlockFound(s: string, i: nat, e: nat)
    requires i <= e <= |s| && IsBlock(s[i..e])
    ensures Spans(s, i) == [Span(i, e)] + Spans(s, e)
  {
    var t := s[i..e];
    var k := i + 1;
    assert t[0] == s[i];
    assert s[k..e] == t[1..];
    assert Depth(s[k..e], 1) == Depth(t, 0);
    forall j | k <= j < e
      ensures Depth(s[k..j], 1) > 0
    {
      var p := t[..j - i];
      assert p == s[i..j] && p[1..] == s[k..j] && p[0] == '{';
      assert Depth(p, 0) == Depth(p[1..], 1);
    }
    CloseIsFirstZero(s, k, 1, e);
  }

  lemma TailHasNoSpan(s: string, i: nat)
    requires i <= |s| && Tail(s[i..])
    ensures Spans(s, i) == []
  {
    if Gap(s[i..]) {
      assert s[i..|s|] == s[i..];
      GapSkipped(s, i, |s|);
    } else {
      var g, u :| Gap(g) && s[i..] == g + (['{'] + u) && Unclosed(u);
      UnclosedTail(s, i, g, u);
    }
  }

  lemma UnclosedTail(s: string, i: nat, g: string, u: string)
    requires i <= |s| && Gap(g) && s[i..] == g + (['{'] + u) && Unclosed(u)
    ensures Spans(s, i) == []
  {
    var t := s[i..];
    var e := i + |g|;
    var k := e + 1;
    assert s[i..e] == t[..|g|] == g;
    GapSkipped(s, i, e);
    assert s[e] == t[|g|] == '{';
    assert s[k..] == t[|g| + 1..] == u;
    forall j | k <= j <= |s|
      ensures Depth(s[k..j], 1) > 0
    {
      assert s[k..j] == s[k..][..j - k] == u[..j - k];
    }
    NeverCloses(s, k, 1);
  }

  /** However a text is cut into brace-free gaps, blocks, and a tail without a complete
      block, the extractor considers exactly those blocks, from left to right - and nothing
      after a brace that is never closed. */
  lemma {:induction false} ConsidersExactlyTheBlocks(prefix: string, gaps: seq<string>, blocks: seq<string>, tail: string)
    requires |gaps| == |blocks| && Tail(tail)
    requires forall g | g in gaps :: Gap(g)
    requires forall b | b in blocks :: IsBlock(b)
    ensures var s := prefix + Interleaved(gaps, blocks, tail);
      Texts(s, Spans(s, |prefix|)) == blocks
    decreases |gaps|
  {
    var s := prefix + Interleaved(gaps, blocks, tail);
    var i := |prefix|;
    if gaps == [] {
      assert s[i..] == tail;
      TailHasNoSpan(s, i);
    } else {
      var g, b, rest := gaps[0], blocks[0], Interleaved(gaps[1..], blocks[1..], tail);
      assert g in gaps && b in blocks;
      var j, e := i + |g|, i + |g| + |b|;
      assert s[i..j] == g && s[j..e] == b;
      GapSkipped(s, i, j);
      BlockFound(s, j, e);
      var prefix' := prefix + g + b;
      assert s == prefix' + rest;
      ConsidersExactlyTheBlocks(prefix', gaps[1..], blocks[1..], tail);
      assert Spans(s, i)[1..] == Spans(s, e);
    }
  }

  /** Reading one character moves the depth. */
  function Next(depth: nat, c: char): int {
    if c == '{' then depth + 1 else if c == '}' then depth - 1 else depth
  }

  lemma DepthFromNext(s: string, i: nat, j: nat, depth: nat)
    requires i < j <= |s|
    ensures Depth(s[i..j], depth) == Depth(s[i + 1..j], Next(depth, s[i]))
  {
    assert s[i..j][1..] == s[i + 1..j];
  }

  /** Where the scan closes, the depth is back at zero for the first time. */
  lemma {:induction false} ClosesAtFirstZero(s: string, i: nat, depth: nat, e: nat)
    requires i <= e <= |s| && Close(s, i, depth) == Some(e)
    ensures Depth(s[i..e], depth) == 0
    ensures forall j | i <= j < e :: Depth(s[i..j], depth) > 0
    decreases e - i
  {
    assert s[i..i] == "";
    if depth > 0 {
      ClosesAtFirstZero(s, i + 1, Next(depth, s[i]), e);
      DepthFromNext(s, i, e, depth);
      forall j | i <= j < e
        ensures Depth(s[i..j], depth) > 0
      {
        if i < j {
          DepthFromNext(s, i, j, depth);
        }
      }
    }
  }

  /** Where it does not close, the depth never comes back to zero. */
  lemma {:induction false} OpenToTheEnd(s: string, i: nat, depth: nat)
    requires i <= |s| && Close(s, i, depth) == None
    ensures forall j | i <= j <= |s| :: Depth(s[i..j], depth) > 0
    decreases |s| - i
  {
    assert s[i..i] == "";
    if i < |s| {
      OpenToTheEnd(s, i + 1, Next(depth, s[i]));
      forall j | i <= j <= |s|
        ensures Depth(s[i..j], depth) > 0
      {
        if i < j {
          DepthFromNext(s, i, j, depth);
        }
      }
    }
  }

  lemma ClosedIsBlock(s: string, i: nat, e: nat)
    requires i < e <= |s| && s[i] == '{' && Close(s, i + 1, 1) == Some(e)
    ensures IsBlock(s[i..e])
  {
    var t := s[i..e];
    var k := i + 1;
    ClosesAtFirstZero(s, k, 1, e);
    assert t[1..] == s[k..e];
    forall j | 0 < j < |t|
      ensures Depth(t[..j], 0) > 0
    {
      var x := i + j;
      assert t[..j] == s[i..x] && t[..j][1..] == s[k..x] && t[..j][0] == '{';
      assert Depth(s[k..x], 1) > 0;
    }
  }

  /** Every text has such a cut, so what is considered is settled for every text. */
  lemma {:induction false} EveryTextIsCut(s: string) returns (gaps: seq<string>, blocks: seq<string>, tail: string)
    ensures |gaps| == |blocks| && s == Interleaved(gaps, blocks, tail) && Tail(tail)
    ensures forall g | g in gaps :: Gap(g)
    ensures forall b | b in blocks :: IsBlock(b)
    ensures Texts(s, Spans(s, 0)) == blocks
  {
    gaps, blocks, tail := CutFrom(s, 0);
    assert s[0..] == s && "" + Interleaved(gaps, blocks, tail) == s;
    ConsidersExactlyTheBlocks("", gaps, blocks, tail);
  }

  /** What each considered text loads to. */
  function Loaded<T>(texts: seq<string>, loads: string -> Option<T>): seq<Option<T>> {
    seq(|texts|, i requires 0 <= i < |texts| => loads(texts[i]))
  }

  /** Of some answers those that there are. */
  function Present<T>(all: seq<Option<T>>): seq<T> {
    if all == [] then []
    else Present(all[..|all| - 1]) + (if all[|all| - 1].Some? then [all[|all| - 1].value] else [])
  }

  lemma {:induction false} PresentCons<T>(x: Option<T>, all: seq<Option<T>>)
    ensures Present([x] + all) == (if x.Some? then [x.value] else []) + Present(all)
    decreases |all|
  {
    var more := [x] + all;
    if all == [] {
      assert more[..0] == [] && Present(more[..0]) == [];
    } else {
      assert more[..|more| - 1] == [x] + all[..|all| - 1];
      PresentCons(x, all[..|all| - 1]);
    }
  }

  lemma {:induction false} ParsedAreLoaded<T>(s: string, spans: seq<Span>, loads: string -> Option<T>)
    requires forall k | 0 <= k < |spans| :: spans[k].start <= spans[k].end <= |s|
    ensures Parsed(s, spans, loads) == Present(Loaded(Texts(s, spans), loads))
    decreases |spans|
  {
    if spans != [] {
      ParsedAreLoaded(s, spans[1..], loads);
      var first, rest := s[spans[0].start..spans[0].end], Texts(s, spans[1..]);
      assert Loaded([first] + rest, loads) == [loads(first)] + Loaded(rest, loads);
      PresentCons(loads(first), Loaded(rest, loads));
    }
  }

  /** So the results are the blocks of the text, from left to right, less those that json.loads
      refuses. */
  lemma ResultsAreBlocks<T>(s: string, gaps: seq<string>, blocks: seq<string>, tail: string, loads: string -> Option<T>)
    requires |gaps| == |blocks| && Tail(tail) && s == Interleaved(gaps, blocks, tail)
    requires forall g | g in gaps :: Gap(g)
    requires forall b | b in blocks :: IsBlock(b)
    ensures Found(s, 0, loads) == Present(Loaded(blocks, loads))
  {
    assert "" + s == s;
    ConsidersExactlyTheBlocks("", gaps, blocks, tail);
    ParsedAreLoaded(s, Spans(s, 0), loads);
  }

  lemma {:induction false} CutFrom(s: string, i: nat) returns (gaps: seq<string>, blocks: seq<string>, tail: string)
    requires i <= |s|
    ensures |gaps| == |blocks| && s[i..] == Interleaved(gaps, blocks, tail) && Tail(tail)
    ensures forall g | g in gaps :: Gap(g)
    ensures forall b | b in blocks :: IsBlock(b)
    decreases |s| - i
  {
    var p := FirstBrace(s, i);
    var g := s[i..p];
    if p == |s| {
      gaps, blocks, tail := [], [], s[i..];
      assert s[i..] == g;
    } else if Close(s, p + 1, 1).None? {
      gaps, blocks, tail := [], [], s[i..];
      OpenTail(s, i, p);
    } else {
      var e := Close(s, p + 1, 1).value;
      ClosedIsBlock(s, p, e);
      var gs, bs, rest := CutFrom(s, e);
      gaps, blocks, tail := [g] + gs, [s[p..e]] + bs, rest;
      assert gaps[1..] == gs && blocks[1..] == bs;
      assert s[i..] == g + (s[p..e] + s[e..]);
    }
  }

  lemma {:induction false} FirstBrace(s: string, i: nat) returns (p: nat)
    requires i <= |s|
    ensures i <= p <= |s| && Gap(s[i..p]) && (p < |s| ==> s[p] == '{')
    decreases |s| - i
  {
    p := i;
    if i < |s| && s[i] != '{' {
      p := FirstBrace(s, i + 1);
      assert s[i..p] == [s[i]] + s[i + 1..p];
    }
  }

  lemma OpenTail(s: string, i: nat, p: nat)
    requires i <= p < |s| && Gap(s[i..p]) && s[p] == '{' && Close(s, p + 1, 1) == None
    ensures Tail(s[i..])
  {
    RestUnclosed(s, p + 1);
    SplitAtBrace(s, i, p);
    OpenBehindGap(s[i..], s[i..p], s[p + 1..]);
  }

  lemma SplitAtBrace(s: string, i: nat, p: nat)
    requires i <= p < |s| && s[p] == '{'
    ensures s[i..] == s[i..p] + (['{'] + s[p + 1..])
  {
  }

  lemma RestUnclosed(s: string, k: nat)
    requires k <= |s| && Close(s, k, 1) == None
    ensures Unclosed(s[k..])
  {
    OpenToTheEnd(s, k, 1);
    forall x | 0 <= x <= |s[k..]|
      ensures Depth(s[k..][..x], 1) > 0
    {
      var j := k + x;
      assert s[k..][..x] == s[k..j];
    }
  }

  lemma OpenBehindGap(t: string, g: string, u: string)
    requires Gap(g) && Unclosed(u) && t == g + (['{'] + u)
    ensures Tail(t)
  {
  }

  /** In brace-free prose a text that starts with a brace is found, and nothing else is, if
      and only if it is a block. */
  lemma FoundInProseIff(prose: string, t: string, epilogue: string)
    requires Gap(prose) && Gap(epilogue) && t != "" && t[0] == '{'
    ensures var s := prose + (t + epilogue);
      Texts(s, Spans(s, 0)) == [t] <==> IsBlock(t)
  {
    var s := prose + (t + epilogue);
    var p := |prose|;
    var e := p + |t|;
    assert s[0..p] == prose && s[p..e] == t && s[e..] == epilogue;
    GapSkipped(s, 0, p);
    if IsBlock(t) {
      BlockFound(s, p, e);
      TailHasNoSpan(s, e);
      assert ([Span(p, e)] + [])[1..] == [];
    } else if Close(s, p + 1, 1).Some? {
      var f := Close(s, p + 1, 1).value;
      ClosedIsBlock(s, p, f);
      assert s[p..f] != t;
      var spans := Spans(s, 0);
      assert spans == [Span(p, f)] + Spans(s, f);
      assert Texts(s, spans)[0] == s[p..f];
    }
  }

  // ---------------------------------------------------------------------------
  // JSON objects are blocks when the braces inside their strings are nested
  // ---------------------------------------------------------------------------

  ghost predicate Nested(t: string) {
    Depth(t, 0) == 0 && forall i | 0 <= i <= |t| :: Depth(t[..i], 0) >= 0
  }

  lemma {:induction false} DepthShift(t: string, d: int)
    ensures Depth(t, d) == Depth(t, 0) + d
    decreases |t|
  {
    if t != "" {
      var x := if t[0] == '{' then 1 else if t[0] == '}' then -1 else 0;
      DepthShift(t[1..], d + x);
      DepthShift(t[1..], x);
    }
  }

  lemma NestedJoin(a: string, b: string)
    requires Nested(a) && Nested(b)
    ensures Nested(a + b)
  {
    DepthJoin(a, b, 0);
    forall i | 0 <= i <= |a + b|
      ensures Depth((a + b)[..i], 0) >= 0
    {
      if i <= |a| {
        assert (a + b)[..i] == a[..i];
      } else {
        assert (a + b)[..i] == a + b[..i - |a|];
        DepthJoin(a, b[..i - |a|], 0);
      }
    }
  }

  lemma {:induction false} NoBracesNested(t: string)
    requires '{' !in t && '}' !in t
    ensures Nested(t)
    decreases |t|
  {
    if t != "" {
      var init, c := t[..|t| - 1], t[|t| - 1];
      assert t == init + [c] && c in t && forall x | x in init :: x in t;
      NoBracesNested(init);
      DepthSnoc(init, c, 0);
      forall i | 0 <= i <= |t|
        ensures Depth(t[..i], 0) >= 0
      {
        if i < |t| {
          assert t[..i] == init[..i];
        } else {
          assert t[..i] == t;
        }
      }
    }
  }

  /** A nested text in braces is a block. */
  lemma WrappedIsBlock(a: string)
    requires Nested(a)
    ensures IsBlock(['{'] + (a + ['}'])) && Nested(['{'] + (a + ['}']))
  {
    var t := ['{'] + (a + ['}']);
    assert t[1..] == a + ['}'];
    DepthSnoc(a, '}', 1);
    DepthShift(a, 1);
    forall i | 0 < i < |t|
      ensures Depth(t[..i], 0) > 0
    {
      assert t[..i][1..] == a[..i - 1];
      DepthShift(a[..i - 1], 1);
    }
    assert t[..|t|] == t;
    assert t[..0] == "";
  }

  /** The braces inside every string of the value, keys included, are nested. */
  ghost predicate StringsNested(v: Value) {
    match v
    case Str(items) => Nested(ItemsText(items, ""))
    case Arr(_, elems) => ElemStringsNested(elems)
    case Obj(_, members) => MemberStringsNested(members)
    case _ => true
  }

  ghost predicate ElemStringsNested(es: Elems) {
    match es
    case NoElems => true
    case Elem(_, v, _, tail) => StringsNested(v) && ElemStringsNested(tail)
  }

  ghost predicate MemberStringsNested(ms: Members) {
    match ms
    case NoMembers => true
    case Member(_, key, _, _, v, _, tail) =>
      Nested(ItemsText(key, "")) && StringsNested(v) && MemberStringsNested(tail)
  }

  lemma StringNested(items: seq<StrItem>)
    requires Nested(ItemsText(items, ""))
    ensures Nested(StringText(items, ""))
  {
    ItemsTextAppends(items, ['"'] + "");
    NoBracesNested(['"']);
    NoBracesNested(['"'] + "");
    NestedJoin(ItemsText(items, ""), ['"'] + "");
    NestedJoin(['"'], ItemsText(items, "") + (['"'] + ""));
  }

  lemma InBrackets(pad: string, body: string)
    requires Nested(pad) && Nested(body)
    ensures Nested(['['] + (pad + (body + ([']'] + ""))))
  {
    NoBracesNested(['[']);
    NoBracesNested([']'] + "");
    NestedJoin(body, [']'] + "");
    NestedJoin(pad, body + ([']'] + ""));
    NestedJoin(['['], pad + (body + ([']'] + "")));
  }

  lemma InBraces(pad: string, body: string)
    requires Nested(pad) && Nested(body)
    ensures Nested(['{'] + (pad + (body + (['}'] + "")))) && IsBlock(['{'] + (pad + (body + (['}'] + ""))))
  {
    NestedJoin(pad, body);
    WrappedIsBlock(pad + body);
    Assoc(pad, body, ['}'] + "");
    assert ['}'] + "" == ['}'];
  }

  lemma {:induction false} ValueNested(v: Value)
    requires ValueOk(v) && StringsNested(v)
    ensures Nested(ValueText(v, ""))
    ensures v.Obj? ==> IsBlock(ValueText(v, ""))
    decreases v
  {
    match v
    case True => NoBracesNested(ValueText(v, ""));
    case False => NoBracesNested(ValueText(v, ""));
    case Null => NoBracesNested(ValueText(v, ""));
    case Num(n) =>
      NumberHasNumberChars(n);
      NoBracesNested(ValueText(v, ""));
    case Str(items) => StringNested(items);
    case Arr(pad, elems) =>
      ElemsNested(elems);
      ElemsTextAppends(elems, [']'] + "");
      WsNested(pad);
      InBrackets(pad, ElemsText(elems, ""));
    case Obj(pad, members) =>
      MembersNested(members);
      MembersTextAppends(members, ['}'] + "");
      WsNested(pad);
      InBraces(pad, MembersText(members, ""));
  }

  lemma WsNested(ws: string)
    requires AllWs(ws)
    ensures Nested(ws)
  {
    NoBracesNested(ws);
  }

  lemma {:induction false} ElemsNested(es: Elems)
    requires ElemsOk(es) && ElemStringsNested(es)
    ensures Nested(ElemsText(es, ""))
    decreases es
  {
    match es
    case NoElems =>
    case Elem(before, v, after, tail) =>
      var rest := if tail.NoElems? then "" else [','] + ElemsText(tail, "");
      ElemsNested(tail);
      NoBracesNested([',']);
      NestedJoin([','], ElemsText(tail, ""));
      ValueNested(v);
      WsNested(before);
      WsNested(after);
      NestedJoin(after, rest);
      NestedJoin(ValueText(v, ""), after + rest);
      ValueTextAppends(v, after + rest);
      NestedJoin(before, ValueText(v, after + rest));
  }

  lemma {:induction false} MembersNested(ms: Members)
    requires MembersOk(ms) && MemberStringsNested(ms)
    ensures Nested(MembersText(ms, ""))
    decreases ms
  {
    match ms
    case NoMembers =>
    case Member(before, key, beforeColon, afterColon, v, after, tail) =>
      var rest := if tail.NoMembers? then "" else [','] + MembersText(tail, "");
      MembersNested(tail);
      NoBracesNested([',']);
      NestedJoin([','], MembersText(tail, ""));
      ValueNested(v);
      WsNested(after);
      NestedJoin(after, rest);
      NestedJoin(ValueText(v, ""), after + rest);
      ValueTextAppends(v, after + rest);
      FieldNested(before, key, beforeColon, afterColon, v, after, rest);
  }

  lemma FieldNested(before: string, key: seq<StrItem>, beforeColon: string, afterColon: string,
                    v: Value, after: string, rest: string)
    requires AllWs(before) && Nested(ItemsText(key, "")) && AllWs(beforeColon) && AllWs(afterColon)
    requires Nested(ValueText(v, after + rest))
    ensures Nested(FieldText(before, key, beforeColon, afterColon, v, after, rest))
  {
    var value := ValueText(v, after + rest);
    WsNested(afterColon);
    NestedJoin(afterColon, value);
    NoBracesNested([':']);
    NestedJoin([':'], afterColon + value);
    WsNested(beforeColon);
    NestedJoin(beforeColon, [':'] + (afterColon + value));
    StringNested(key);
    NestedJoin(StringText(key, ""), beforeColon + ([':'] + (afterColon + value)));
    StringTextAppends(key, beforeColon + ([':'] + (afterColon + value)));
    WsNested(before);
    NestedJoin(before, StringText(key, beforeColon + ([':'] + (afterColon + value))));
  }

  /** Every object whose strings have nested braces is found in brace-free prose, and
      nothing else is. */
  lemma ObjectFoundInProse<T>(v: Value, prose: string, epilogue: string, loads: string -> Option<T>)
    requires ValueOk(v) && v.Obj? && StringsNested(v)
    requires Gap(prose) && Gap(epilogue) && loads(ValueText(v, "")).Some?
    ensures Found(prose + (ValueText(v, "") + epilogue), 0, loads) == [loads(ValueText(v, "")).value]
  {
    ValueNested(v);
    var t := ValueText(v, "");
    var s := prose + (t + epilogue);
    GapSkipped(s, 0, |prose|);
    assert s[0..|prose|] == prose;
    var e := |prose| + |t|;
    assert s[|prose|..e] == t && s[e..] == epilogue;
    BlockFound(s, |prose|, e);
    TailHasNoSpan(s, e);
    var spans := Spans(s, 0);
    assert spans == [Span(|prose|, e)] + [] && spans[1..] == [];
    assert Parsed(s, spans[1..], loads) == [];
    assert loads(s[spans[0].start..spans[0].end]) == loads(t);
  }

  /** A lone brace inside a string misleads the scan: {"a":"{"} is never closed. */
  lemma LoneBraceInStringHidesObject<T>(loads: string -> Option<T>)
    ensures ValueOk(Obj("", Member("", [Plain('a')], "", "", Str([Plain('{')]), "", NoMembers)))
    ensures Found("{\"a\":\"{\"}", 0, loads) == []
  {
    var s := "{\"a\":\"{\"}";
    assert Close(s, 9, 1) == None;
    assert Close(s, 8, 2) == Close(s, 9, 1);
    assert Close(s, 7, 2) == Close(s, 8, 2);
    assert Close(s, 6, 1) == Close(s, 7, 2);
    assert Close(s, 5, 1) == Close(s, 6, 1);
    assert Close(s, 4, 1) == Close(s, 5, 1);
    assert Close(s, 3, 1) == Close(s, 4, 1);
    assert Close(s, 2, 1) == Close(s, 3, 1);
    assert Close(s, 1, 1) == Close(s, 2, 1);
    assert Spans(s, 0) == [];
    assert ItemsOk([Plain('a')]) && ItemsOk([Plain('{')]);
    var v := Str([Plain('{')]);
    assert ValueOk(v) && MembersOk(Member("", [Plain('a')], "", "", v, "", NoMembers));
  }
}
