/**
 When the first request read from a connection does not depend on how the bytes arrive and
 what the buffer held before: no Content-Length value is blank up to the end of the header
 block, or the block leaves no room in the buffer.
 */
module HttpChunks {
  import opened Ascii
  import opened Wrappers
  import opened HttpRequest

  // ---------------------------------------------------------------------------
  // When the header block determines the fields
  // ---------------------------------------------------------------------------

  predicate AllSpace(s: string) {
    forall c | c in s :: IsSpace(c)
  }

  /** Every Content-Length value has a byte before the end of the header block that is
      not white space. */
  predicate SelfContainedLines(s: string)
    decreases |s|
  {
    s == "" || s[0] == '\r' || s[0] == '\n' ||
    ((HasPrefix(s, "content-length:") ==> !AllSpace(s[15..])) && SelfContainedLines(AfterNewline(s)))
  }

  predicate SelfContained(head: string) {
    SelfContainedLines(LinesOf(head))
  }

  predicate EndsWithNewline(s: string) {
    s == "" || s[|s| - 1] == '\n'
  }

  lemma {:induction false} SpacesSkippedBefore(t: string, b: string)
    requires !AllSpace(t)
    ensures SkipSpaces(t) != "" && SkipSpaces(t + b) == SkipSpaces(t) + b
    ensures SkipSpaces(t)[|SkipSpaces(t)| - 1] == t[|t| - 1]
  {
    assert t != "";
    if IsSpace(t[0]) {
      assert (t + b)[1..] == t[1..] + b;
      assert !AllSpace(t[1..]) by {
        var c :| c in t && !IsSpace(c);
        assert c in t[1..];
      }
      SpacesSkippedBefore(t[1..], b);
    }
  }

  lemma {:induction false} DigitsStopBefore(t: string, b: string, acc: nat)
    requires t != "" && !IsDigit(t[|t| - 1])
    ensures AtolDigits(t + b, acc) == AtolDigits(t, acc)
  {
    if IsDigit(t[0]) {
      assert (t + b)[1..] == t[1..] + b;
      DigitsStopBefore(t[1..], b, acc * 10 + FloatText.Digit(t[0]));
    }
  }

  /** atol stays inside a text that holds a visible byte and ends with a newline. */
  lemma AtolStaysInside(t: string, b: string)
    requires !AllSpace(t) && EndsWithNewline(t)
    ensures Atol(t + b) == Atol(t)
  {
    SpacesSkippedBefore(t, b);
    var u := SkipSpaces(t);
    if u[0] == '-' || u[0] == '+' {
      assert (u + b)[1..] == u[1..] + b;
      DigitsStopBefore(u[1..], b, 0);
    } else {
      DigitsStopBefore(u, b, 0);
    }
  }

  lemma {:induction false} BlanksAreSpace(s: string)
    ensures AllSpace(SkipBlanks(s)) ==> AllSpace(s)
    ensures |SkipBlanks(s)| <= |s| && SkipBlanks(s) == s[|s| - |SkipBlanks(s)|..]
  {
    if s != "" && s[0] == ' ' {
      BlanksAreSpace(s[1..]);
      assert forall c | c in s :: c == s[0] || c in s[1..];
    }
  }

  /** The value seen by atol is the rest of the block without some leading blanks. */
  lemma ValueOfLine(s: string)
    requires HasPrefix(s, "content-length:") && EndsWithNewline(s)
    ensures EndsWithNewline(ValueFrom(s, 15))
    ensures AllSpace(ValueFrom(s, 15)) <==> AllSpace(s[15..])
  {
    var n := LineLength(s);
    PrefixLineShape(s);
    if 15 < n {
      var a, b := s[15..n], s[n..];
      SplitTail(s, 15, n);
      BlanksDropped(a, b);
      assert b[|b| - 1] == s[|s| - 1] && ValueFrom(s, 15) == SkipBlanks(a) + b;
    }
  }

  lemma SplitTail(s: string, i: nat, n: nat)
    requires i <= n <= |s|
    ensures s[i..] == s[i..n] + s[n..]
  {
  }

  lemma BlanksDropped(a: string, b: string)
    requires b != ""
    ensures AllSpace(SkipBlanks(a) + b) <==> AllSpace(a + b)
    ensures (SkipBlanks(a) + b)[|SkipBlanks(a) + b| - 1] == b[|b| - 1]
  {
    BlanksAreSpace(a);
    assert forall c | c in SkipBlanks(a) :: c in a;
    JoinedSpaces(a, b);
    JoinedSpaces(SkipBlanks(a), b);
  }

  lemma JoinedSpaces(a: string, b: string)
    ensures AllSpace(a + b) <==> AllSpace(a) && AllSpace(b)
  {
    assert forall c :: c in a + b <==> c in a || c in b;
  }

  lemma PrefixLineShape(s: string)
    requires HasPrefix(s, "content-length:") && EndsWithNewline(s)
    ensures LineLength(s) < |s| && IndexOfNewline(s) < |s|
  {
  }

  lemma {:induction false} LinesIndependent(f: Fields, s: string, b: string)
    requires SelfContainedLines(s) && EndsWithNewline(s)
    ensures ReadLines(f, s, b) == ReadLines(f, s, "")
    decreases |s|
  {
    if s != "" && s[0] != '\r' && s[0] != '\n' {
      SameLineRead(f, s, b);
      LinesIndependent(ReadLine(f, s, b), AfterNewline(s), b);
    }
  }

  lemma SuffixEndsWithNewline(s: string, i: nat)
    requires EndsWithNewline(s) && i <= |s|
    ensures EndsWithNewline(s[i..])
  {
  }

  lemma {:induction false} AfterMethodEndsWithNewline(s: string)
    requires EndsWithNewline(s)
    ensures EndsWithNewline(AfterMethod(s))
  {
    if s != "" && s[0] != ' ' {
      AfterMethodEndsWithNewline(s[1..]);
    }
  }

  lemma AfterNewlineEndsWithNewline(s: string)
    requires EndsWithNewline(s)
    ensures EndsWithNewline(AfterNewline(s))
  {
  }

  lemma StartEndsWithNewline(head: string)
    requires EndsWithNewline(head)
    ensures EndsWithNewline(StartOf(head).rest)
  {
    AfterMethodEndsWithNewline(head);
    if |head| >= 4 { SuffixEndsWithNewline(head, 4); }
    if |head| >= 5 { SuffixEndsWithNewline(head, 5); }
    if |head| >= 8 { SuffixEndsWithNewline(head, 8); }
  }

  lemma LinesEndWithNewline(head: string)
    requires EndsWithNewline(head)
    ensures EndsWithNewline(LinesOf(head))
  {
    StartEndsWithNewline(head);
    var rest := StartOf(head).rest;
    SuffixEndsWithNewline(rest, PathLength(rest));
    AfterNewlineEndsWithNewline(rest[PathLength(rest)..]);
  }

  // The converse: a blank value lets the memory behind the header block in

  lemma {:induction false} AllSpaceSkipped(t: string, b: string)
    requires AllSpace(t)
    ensures SkipSpaces(t + b) == SkipSpaces(b)
  {
    if t != "" {
      assert t[0] in t;
      assert forall c | c in t[1..] :: c in t;
      assert (t + b)[1..] == t[1..] + b;
      AllSpaceSkipped(t[1..], b);
    } else {
      assert t + b == b;
    }
  }

  lemma {:induction false} BlankLinesSetNothing(f: Fields, s: string, b: string)
    requires AllSpace(s)
    ensures ReadLines(f, s, b) == f
    decreases |s|
  {
    if s != "" && s[0] != '\r' && s[0] != '\n' {
      assert s[0] in s;
      assert !HasPrefix(s, "content-length:") && !HasPrefix(s, "content-type:");
      assert forall c | c in AfterNewline(s) :: c in s;
      BlankLinesSetNothing(f, AfterNewline(s), b);
    }
  }

  lemma BlankLineRead(f: Fields, s: string, b: string)
    requires HasPrefix(s, "content-length:") && AllSpace(s[15..]) && EndsWithNewline(s)
    ensures ReadLine(f, s, b) == f.(contentLength := ToSize(Atol(b))) && AllSpace(AfterNewline(s))
  {
    ValueOfLine(s);
    AllSpaceSkipped(ValueFrom(s, 15), b);
    NewlineBehindPrefix(s);
  }

  lemma NewlineBehindPrefix(s: string)
    requires HasPrefix(s, "content-length:") && AllSpace(s[15..])
    ensures AllSpace(AfterNewline(s))
  {
    var q := IndexOfNewline(s);
    assert forall i | 0 <= i < 15 :: s[i] != '\n';
    if q < |s| {
      assert q >= 15;
      assert s[q + 1..] == s[15..][q + 1 - 15..];
    }
  }

  /** A blank value is read from the memory behind the block, and nothing else is. */
  lemma {:induction false} StaleByteRead(f: Fields, s: string, b: string)
    requires !SelfContainedLines(s) && EndsWithNewline(s)
    ensures ReadLines(f, s, b) == ReadLines(f, s, "").(contentLength := ToSize(Atol(b)))
    decreases |s|
  {
    if HasPrefix(s, "content-length:") && AllSpace(s[15..]) {
      BlankLineRead(f, s, b);
      BlankLineRead(f, s, "");
      BlankLinesSetNothing(ReadLine(f, s, b), AfterNewline(s), b);
      BlankLinesSetNothing(ReadLine(f, s, ""), AfterNewline(s), "");
    } else {
      SameLineRead(f, s, b);
      AfterNewlineEndsWithNewline(s);
      StaleByteRead(ReadLine(f, s, b), AfterNewline(s), b);
    }
  }

  lemma SameLineRead(f: Fields, s: string, b: string)
    requires EndsWithNewline(s) && (HasPrefix(s, "content-length:") ==> !AllSpace(s[15..]))
    ensures ReadLine(f, s, b) == ReadLine(f, s, "")
  {
    if HasPrefix(s, "content-length:") {
      ValueOfLine(s);
      var v := ValueFrom(s, 15);
      AtolStaysInside(v, b);
      assert v + "" == v;
    }
  }

  /** The fields are a function of the header block alone, whatever the memory behind it
      holds, if and only if no Content-Length value is blank to the end of the block. */
  lemma HeadDecidesFieldsIff(head: string)
    requires EndsWithNewline(head)
    ensures SelfContained(head) <==> forall a, b :: ParseHead(head, a) == ParseHead(head, b)
  {
    LinesEndWithNewline(head);
    if SelfContained(head) {
      forall a, b
        ensures ParseHead(head, a) == ParseHead(head, b)
      {
        LinesIndependent(RequestLine(head), LinesOf(head), a);
        LinesIndependent(RequestLine(head), LinesOf(head), b);
      }
    } else {
      StaleByteDecides(head, "9", 9);
      StaleByteDecides(head, "8", 8);
      assert ParseHead(head, "9") != ParseHead(head, "8");
    }
  }

  lemma StaleHead(head: string, b: string)
    requires EndsWithNewline(head) && !SelfContained(head)
    ensures ParseHead(head, b) == ParseHead(head, "").(contentLength := ToSize(Atol(b)))
  {
    LinesEndWithNewline(head);
    StaleByteRead(RequestLine(head), LinesOf(head), b);
  }

  lemma StaleByteDecides(head: string, b: string, value: nat)
    requires EndsWithNewline(head) && !SelfContained(head) && |b| == 1 && IsDigit(b[0]) && value == FloatText.Digit(b[0])
    ensures ParseHead(head, b).contentLength == value
  {
    StaleHead(head, b);
    AtolOfByte(b);
  }

  lemma AtolOfByte(b: string)
    requires |b| == 1
    ensures 0 <= Atol(b) <= 9
    ensures IsDigit(b[0]) ==> Atol(b) == FloatText.Digit(b[0])
  {
    var v := b[1..];
    assert AtolDigits(v, 0) == 0;
    assert IsDigit(b[0]) ==> AtolDigits(b, 0) == AtolDigits(v, FloatText.Digit(b[0])) == FloatText.Digit(b[0]);
  }

  // ---------------------------------------------------------------------------
  // Growing buffers
  // ---------------------------------------------------------------------------

  /** The first k bytes of the stream have been read into the buffer. */
  predicate Received(mem: string, s: string, k: nat) {
    k <= |s| && k <= |mem| && mem[..k] == s[..k]
  }

  lemma HeaderEndOfPrefix(s: string, k: nat)
    requires k <= |s|
    ensures HeaderEnd(s[..k], 0) == match HeaderEnd(s, 0)
                                    case None => None
                                    case Some(h) => if k < h then None else Some(h)
  {
    var t := s[..k];
    assert forall j: nat :: Ends(t, j) <==> j + 3 < k && Ends(s, j);
    HeaderEndIsFirst(s, 0);
    FirstEnd(t, HeaderEnd(s, 0));
  }

  /** The first empty line is where it is in any longer text. */
  lemma FirstEnd(t: string, whole: Option<nat>)
    requires whole.Some? ==> whole.value >= 4 && (whole.value <= |t| ==> Ends(t, whole.value - 4))
    requires forall j: nat | Ends(t, j) :: whole.Some? && j + 4 >= whole.value
    ensures HeaderEnd(t, 0) == match whole case None => None case Some(h) => if |t| < h then None else Some(h)
  {
    HeaderEndIsFirst(t, 0);
  }

  /** Where the verdict falls, and what it is. */
  function Cutoff(s: string): nat {
    match HeaderEnd(s, 0)
    case None => |s| + 1
    case Some(h) =>
      var length := ParseHead(s[..h], "").contentLength;
      if length > HTTP_MAX_BODY_SIZE then h else h + length
  }

  function FinalVerdict(s: string): Verdict
    requires Cutoff(s) <= |s|
  {
    var h := HeaderEnd(s, 0).value;
    Judge(ParseHead(s[..h], ""), s, h, |s|)
  }

  /** Parsing any received prefix, whatever stale bytes stand behind it. */
  lemma ChunkIndependence(s: string, mem: string, k: nat)
    requires Received(mem, s, k) && k <= READ_BUF_SIZE
    requires HeaderEnd(s, 0).Some? ==> SelfContained(s[..HeaderEnd(s, 0).value])
    ensures k < Cutoff(s) ==> Parse(mem, k) == NeedMore
    ensures k >= Cutoff(s) ==> Parse(mem, k) == FinalVerdict(s) && !FinalVerdict(s).NeedMore?
  {
    HeaderEndOfPrefix(s, k);
    if HeaderEnd(s, 0).Some? && HeaderEnd(s, 0).value <= k {
      var h := HeaderEnd(s, 0).value;
      SameHead(s, mem, h, k);
      SameJudgement(ParseHead(s[..h], ""), s, mem, h, k);
    }
  }

  lemma SameHead(s: string, mem: string, h: nat, k: nat)
    requires Received(mem, s, k) && h <= k && HeaderEnd(s, 0) == Some(h) && SelfContained(s[..h])
    ensures ParseHead(mem[..h], mem[h..]) == ParseHead(s[..h], "")
  {
    assert mem[..h] == mem[..k][..h] == s[..h];
    HeadEndsWithNewline(s, h);
    HeadDecidesFieldsIff(s[..h]);
  }

  lemma HeadEndsWithNewline(s: string, h: nat)
    requires HeaderEnd(s, 0) == Some(h)
    ensures EndsWithNewline(s[..h])
  {
    HeaderEndIsFirst(s, 0);
    assert Ends(s, h - 4);
  }

  lemma SameJudgement(f: Fields, s: string, mem: string, h: nat, k: nat)
    requires Received(mem, s, k) && h <= k
    ensures f.contentLength > HTTP_MAX_BODY_SIZE || f.contentLength <= k - h ==>
      Judge(f, mem, h, k) == Judge(f, s, h, |s|) && !Judge(f, s, h, |s|).NeedMore?
    ensures k - h < f.contentLength <= HTTP_MAX_BODY_SIZE ==> Judge(f, mem, h, k) == NeedMore
  {
    if f.contentLength <= k - h {
      assert mem[h..h + f.contentLength] == mem[..k][h..h + f.contentLength];
      assert s[h..h + f.contentLength] == s[..k][h..h + f.contentLength];
    }
  }

  /** Without the condition even the same bytes can get two verdicts: the stale byte
      behind the header block decides. */
  lemma BlankLengthReadsStaleByte(head: string)
    requires HeaderEnd(head, 0) == Some(|head|) && !SelfContained(head)
    ensures Parse(head + "0", |head|).Complete? && Parse(head + "9", |head|).NeedMore?
  {
    HeadEndsWithNewline(head, |head|);
    assert head[..|head|] == head;
    StaleByteDecides(head, "0", 0);
    StaleByteDecides(head, "9", 9);
    ParseAtHead(head, "0");
    ParseAtHead(head, "9");
  }

  lemma ParseAtHead(head: string, b: string)
    requires HeaderEnd(head, 0) == Some(|head|)
    ensures Parse(head + b, |head|) == Judge(ParseHead(head, b), head + b, |head|, |head|)
  {
    assert (head + b)[..|head|] == head && (head + b)[|head|..] == b;
  }

  // ---------------------------------------------------------------------------
  // The read loop of handle_connection
  // ---------------------------------------------------------------------------

  datatype Outcome = Closed | Answer(v: Verdict)

  function Min(a: nat, b: nat): nat {
    if a < b then a else b
  }

  /** What recv returns when the peer has sent `s`: at most `want` bytes, at least one. */
  function Arrival(s: string, total: nat, want: nat): nat
    requires total <= |s| && total <= READ_BUF_SIZE
  {
    Min(Min(if want == 0 then 1 else want, READ_BUF_SIZE - total), |s| - total)
  }

  /** The buffer after n more bytes have been read into it. */
  function AfterRecv(s: string, mem: string, total: nat, n: nat): (r: string)
    requires total + n <= |s| && total + n <= |mem|
    ensures |r| == |mem|
  {
    mem[..total] + s[total..total + n] + mem[total + n..]
  }

  /** The loop over the recv calls for one request; a recv of zero bytes closes. */
  function ReadLoop(s: string, mem: string, total: nat, cuts: seq<nat>): Outcome
    requires |mem| == READ_BUF_SIZE && total <= |s| && total <= READ_BUF_SIZE
    decreases |cuts|
  {
    if total >= READ_BUF_SIZE || cuts == [] || total == |s| then Closed
    else
      var n := Arrival(s, total, cuts[0]);
      var mem' := AfterRecv(s, mem, total, n);
      var v := Parse(mem', total + n);
      if v.NeedMore? then ReadLoop(s, mem', total + n, cuts[1..]) else Answer(v)
  }

  /** The part of the stream that is ever looked at. */
  function Seen(s: string): string {
    s[..Min(|s|, READ_BUF_SIZE)]
  }

  /** What a stream deserves. */
  function Deserved(s: string): Outcome {
    var t := Seen(s);
    if Cutoff(t) <= |t| then Answer(FinalVerdict(t)) else Closed
  }

  /** The streams whose first READ_BUF_SIZE bytes hold no blank Content-Length value. */
  predicate Decidable(s: string) {
    var t := Seen(s);
    HeaderEnd(t, 0).Some? ==> SelfContained(t[..HeaderEnd(t, 0).value])
  }

  lemma RecvJudged(s: string, mem: string, k: nat)
    requires Decidable(s) && |mem| == READ_BUF_SIZE && Received(mem, s, k)
    ensures k < Cutoff(Seen(s)) ==> Parse(mem, k) == NeedMore
    ensures k >= Cutoff(Seen(s)) ==> !Parse(mem, k).NeedMore? && Answer(Parse(mem, k)) == Deserved(s)
  {
    assert Seen(s)[..k] == s[..k];
    ChunkIndependence(Seen(s), mem, k);
  }

  /** One turn of the loop. */
  lemma ReadLoopTurn(s: string, mem: string, total: nat, cuts: seq<nat>)
    requires |mem| == READ_BUF_SIZE && total < |s| && total < READ_BUF_SIZE && cuts != []
    ensures var n := Arrival(s, total, cuts[0]);
      var v := Parse(AfterRecv(s, mem, total, n), total + n);
      ReadLoop(s, mem, total, cuts)
      == if v.NeedMore? then ReadLoop(s, AfterRecv(s, mem, total, n), total + n, cuts[1..]) else Answer(v)
  {
  }

  lemma TurnTaken(s: string, mem: string, total: nat, cuts: seq<nat>) returns (mem': string, total': nat)
    requires |mem| == READ_BUF_SIZE && total < Min(|s|, READ_BUF_SIZE) && mem[..total] == s[..total] && cuts != []
    ensures total < total' <= Min(|s|, READ_BUF_SIZE) && |mem'| == READ_BUF_SIZE && Received(mem', s, total')
    ensures ReadLoop(s, mem, total, cuts)
      == if Parse(mem', total').NeedMore? then ReadLoop(s, mem', total', cuts[1..]) else Answer(Parse(mem', total'))
  {
    ReadLoopTurn(s, mem, total, cuts);
    var n := Arrival(s, total, cuts[0]);
    total' := total + n;
    mem' := AfterRecv(s, mem, total, n);
    assert mem'[..total'] == s[..total'];
  }

  lemma NothingDeserved(s: string, mem: string, total: nat, cuts: seq<nat>)
    requires |mem| == READ_BUF_SIZE && total == Min(|s|, READ_BUF_SIZE)
    requires total < Cutoff(Seen(s))
    ensures ReadLoop(s, mem, total, cuts) == Deserved(s)
  {
  }

  lemma {:induction false} ReadLoopOutcome(s: string, mem: string, total: nat, cuts: seq<nat>, cutoff: nat, limit: nat)
    requires |mem| == READ_BUF_SIZE && limit == Min(|s|, READ_BUF_SIZE) && total <= limit && mem[..total] == s[..total]
    requires Decidable(s) && cutoff == Cutoff(s[..limit]) && total < cutoff
    requires |cuts| >= |s| - total
    ensures ReadLoop(s, mem, total, cuts) == Deserved(s)
    decreases |cuts|
  {
    if total == limit {
      NothingDeserved(s, mem, total, cuts);
    } else {
      var mem', total' := TurnTaken(s, mem, total, cuts);
      RecvJudged(s, mem', total');
      if total' < cutoff {
        ReadLoopOutcome(s, mem', total', cuts[1..], cutoff, limit);
      }
    }
  }

  /** However recv splits the bytes and whatever the buffer held before, the first
      request read from a connection is the one the stream deserves. */
  lemma FirstRequestIndependentOfChunking(s: string, mem: string, cuts: seq<nat>)
    requires |mem| == READ_BUF_SIZE && |cuts| >= |s| && Decidable(s)
    ensures ReadLoop(s, mem, 0, cuts) == Deserved(s)
  {
    var t := Seen(s);
    assert Cutoff(t) > 0;
    assert mem[..0] == s[..0];
    ReadLoopOutcome(s, mem, 0, cuts, Cutoff(t), |t|);
  }

  // ---------------------------------------------------------------------------
  // Which streams leave nothing to the old buffer contents
  // ---------------------------------------------------------------------------

  /** The outcome is the same for all buffers and all ways of receiving the stream. */
  ghost predicate Independent(s: string) {
    forall mem, mem', cuts, cuts' | |mem| == |mem'| == READ_BUF_SIZE && |cuts| >= |s| && |cuts'| >= |s| ::
      ReadLoop(s, mem, 0, cuts) == ReadLoop(s, mem', 0, cuts')
  }

  /** The header block fills the buffer, or leaves one byte, which the stream sets to a
      length of zero. */
  predicate NoRoom(s: string) {
    match HeaderEnd(Seen(s), 0)
    case None => false
    case Some(h) => h == READ_BUF_SIZE || (h == READ_BUF_SIZE - 1 && h < |s| && Atol(s[h..h + 1]) == 0)
  }

  /** The verdict at any point of a stream whose block ends at h. */
  lemma ParseReceived(s: string, mem: string, k: nat, h: nat)
    requires Received(mem, s, k) && |mem| == READ_BUF_SIZE && HeaderEnd(Seen(s), 0) == Some(h)
    ensures Parse(mem, k) == if k < h then NeedMore else Judge(ParseHead(s[..h], mem[h..]), mem, h, k)
    ensures EndsWithNewline(s[..h])
  {
    var t := Seen(s);
    assert t[..k] == mem[..k] && t[..h] == s[..h];
    HeaderEndOfPrefix(t, k);
    HeadEndsWithNewline(t, h);
    assert k >= h ==> mem[..h] == mem[..k][..h] == s[..h];
  }

  /** The request the header block alone would be. */
  function Bodiless(s: string, h: nat): Outcome
    requires h <= |s|
  {
    Answer(Complete(h, ParseHead(s[..h], "").(contentLength := 0), ""))
  }

  /** What a Content-Length comes to: negative ones and those over 128 KB are refused, the
      others wait for as many bytes. */
  lemma JudgeLength(f: Fields, value: int, mem: string, h: nat, k: nat)
    requires h <= k <= |mem| && -LONG_MAX - 1 <= value <= LONG_MAX
    ensures var v := Judge(f.(contentLength := ToSize(value)), mem, h, k);
      && (value == 0 ==> v == Complete(h, f.(contentLength := 0), ""))
      && (value < 0 ==> v == Malformed)
      && (value > 131072 ==> v == Malformed)
      && (0 < value <= 131072 && k - h < value ==> v == NeedMore)
      && (0 < value <= 131072 && value <= k - h ==> v == Complete(h + value, f.(contentLength := value), mem[h..h + value]))
      && (value != 0 ==> v != Complete(h, f.(contentLength := 0), ""))
  {
  }

  /** A block with a blank length takes it from the bytes behind it. */
  lemma ParseBlank(s: string, mem: string, k: nat, h: nat, value: int)
    requires Received(mem, s, k) && |mem| == READ_BUF_SIZE && HeaderEnd(Seen(s), 0) == Some(h) && h <= k
    requires !SelfContained(s[..h]) && value == Atol(mem[h..])
    ensures var v := Parse(mem, k);
      && (value == 0 ==> Answer(v) == Bodiless(s, h))
      && (value < 0 ==> v == Malformed)
      && (0 < value <= HTTP_MAX_BODY_SIZE && k - h < value ==> v == NeedMore)
      && (value != 0 ==> Answer(v) != Bodiless(s, h))
  {
    ParseReceived(s, mem, k, h);
    StaleHead(s[..h], mem[h..]);
    JudgeLength(ParseHead(s[..h], ""), value, mem, h, k);
  }

  lemma FullBufferTurn(s: string, mem: string, k: nat)
    requires Received(mem, s, k) && |mem| == READ_BUF_SIZE && HeaderEnd(Seen(s), 0) == Some(READ_BUF_SIZE)
    requires !SelfContained(s[..READ_BUF_SIZE])
    ensures if k < READ_BUF_SIZE then Parse(mem, k) == NeedMore else Answer(Parse(mem, k)) == Bodiless(s, READ_BUF_SIZE)
  {
    if k < READ_BUF_SIZE {
      ParseReceived(s, mem, k, READ_BUF_SIZE);
    } else {
      assert mem[READ_BUF_SIZE..] == "";
      ParseBlank(s, mem, k, READ_BUF_SIZE, 0);
    }
  }

  lemma LastByteTurn(s: string, mem: string, k: nat, h: nat)
    requires Received(mem, s, k) && |mem| == READ_BUF_SIZE && HeaderEnd(Seen(s), 0) == Some(h)
    requires h == READ_BUF_SIZE - 1 && h < |s| && Atol(s[h..h + 1]) == 0 && !SelfContained(s[..h])
    ensures Parse(mem, k) == NeedMore || Answer(Parse(mem, k)) == Bodiless(s, h)
    ensures k == READ_BUF_SIZE ==> Answer(Parse(mem, k)) == Bodiless(s, h)
  {
    if k < h {
      ParseReceived(s, mem, k, h);
    } else {
      AtolOfByte(mem[h..]);
      ParseBlank(s, mem, k, h, Atol(mem[h..]));
      if k == READ_BUF_SIZE {
        assert mem[h..] == mem[..k][h..] == s[h..h + 1];
      }
    }
  }

  lemma NoRoomTurn(s: string, mem: string, k: nat, h: nat)
    requires Received(mem, s, k) && |mem| == READ_BUF_SIZE && HeaderEnd(Seen(s), 0) == Some(h)
    requires NoRoom(s) && !SelfContained(s[..h])
    ensures Parse(mem, k) == NeedMore || Answer(Parse(mem, k)) == Bodiless(s, h)
    ensures k == READ_BUF_SIZE ==> Answer(Parse(mem, k)) == Bodiless(s, h)
  {
    if h == READ_BUF_SIZE {
      FullBufferTurn(s, mem, k);
    } else {
      LastByteTurn(s, mem, k, h);
    }
  }

  lemma {:induction false} NoRoomOutcome(s: string, mem: string, total: nat, cuts: seq<nat>, h: nat)
    requires |mem| == READ_BUF_SIZE && total < READ_BUF_SIZE && total < |s| && mem[..total] == s[..total]
    requires HeaderEnd(Seen(s), 0) == Some(h) && NoRoom(s) && !SelfContained(s[..h])
    requires |cuts| >= |s| - total
    ensures ReadLoop(s, mem, total, cuts) == Bodiless(s, h)
    decreases |cuts|
  {
    var mem', total' := TurnTaken(s, mem, total, cuts);
    NoRoomTurn(s, mem', total', h);
    if Parse(mem', total') == NeedMore {
      NoRoomOutcome(s, mem', total', cuts[1..], h);
    }
  }

  /** The block arrives in one piece, on top of `mem`. */
  lemma BlockAtOnce(s: string, mem: string, cuts: seq<nat>, h: nat, value: int)
    requires |mem| == READ_BUF_SIZE && HeaderEnd(Seen(s), 0) == Some(h) && !SelfContained(s[..h])
    requires cuts != [] && cuts[0] == h && Atol(mem[h..]) == value
    ensures value == 0 ==> ReadLoop(s, mem, 0, cuts) == Bodiless(s, h)
    ensures value < 0 ==> ReadLoop(s, mem, 0, cuts) == Answer(Malformed)
    ensures 0 < value <= HTTP_MAX_BODY_SIZE && h == |s| ==> ReadLoop(s, mem, 0, cuts) == Closed
  {
    ReadLoopTurn(s, mem, 0, cuts);
    var mem' := AfterRecv(s, mem, 0, h);
    assert mem'[..h] == s[..h] && mem'[h..] == mem[h..];
    ParseBlank(s, mem', h, h, value);
  }

  /** A buffer of NUL bytes with a few others at h. */
  function Stale(h: nat, b: string): (mem: string)
    requires h + |b| <= READ_BUF_SIZE
    ensures |mem| == READ_BUF_SIZE && mem[h..h + |b|] == b && forall i | h + |b| <= i < READ_BUF_SIZE :: mem[i] == '\0'
  {
    seq(READ_BUF_SIZE, i requires 0 <= i < READ_BUF_SIZE => if h <= i < h + |b| then b[i - h] else '\0')
  }

  lemma StaleValues(h: nat)
    requires h < READ_BUF_SIZE
    ensures Atol(Stale(h, "")[h..]) == 0 && Atol(Stale(h, "9")[h..]) == 9
    ensures h + 2 <= READ_BUF_SIZE ==> Atol(Stale(h, "-1")[h..]) == -1
  {
    var nul, nine := Stale(h, "")[h..], Stale(h, "9")[h..];
    assert nul[0] == '\0';
    assert nine[0] == '9' && AtolDigits(nine, 0) == AtolDigits(nine[1..], 9) == 9;
    if h + 2 <= READ_BUF_SIZE {
      var minus := Stale(h, "-1")[h..];
      assert Stale(h, "-1")[h..h + 2] == minus[..2];
      assert minus[0] == '-' && minus[1..][0] == '1';
      assert AtolDigits(minus[1..], 0) == AtolDigits(minus[1..][1..], 1) == 1;
    }
  }

  /** The stream's own byte behind the block, received with it. */
  lemma BlockWithNextByte(s: string, mem: string, cuts: seq<nat>, h: nat)
    requires |mem| == READ_BUF_SIZE && HeaderEnd(Seen(s), 0) == Some(h) && !SelfContained(s[..h])
    requires h == READ_BUF_SIZE - 1 && h < |s| && Atol(s[h..h + 1]) != 0
    requires cuts != [] && cuts[0] == READ_BUF_SIZE
    ensures ReadLoop(s, mem, 0, cuts) != Bodiless(s, h)
  {
    ReadLoopTurn(s, mem, 0, cuts);
    var mem' := AfterRecv(s, mem, 0, READ_BUF_SIZE);
    assert mem'[..READ_BUF_SIZE] == s[..READ_BUF_SIZE] && mem'[h..] == s[h..h + 1];
    AtolOfByte(s[h..h + 1]);
    ParseBlank(s, mem', READ_BUF_SIZE, h, Atol(s[h..h + 1]));
  }

  lemma Differ(s: string, mem: string, mem': string, cuts: seq<nat>, cuts': seq<nat>)
    requires |mem| == |mem'| == READ_BUF_SIZE && |cuts| >= |s| && |cuts'| >= |s|
    requires ReadLoop(s, mem, 0, cuts) != ReadLoop(s, mem', 0, cuts')
    ensures !Independent(s)
  {
  }

  /** The block at once, then a byte at a time. */
  function BlockFirst(s: string, first: nat): (cuts: seq<nat>)
    ensures |cuts| == |s| + 1 && cuts[0] == first
  {
    [first] + seq(|s|, _ => 1)
  }

  lemma SignShows(s: string, h: nat)
    requires HeaderEnd(Seen(s), 0) == Some(h) && !SelfContained(s[..h]) && h + 2 <= READ_BUF_SIZE
    ensures !Independent(s)
  {
    StaleValues(h);
    var cuts := BlockFirst(s, h);
    BlockAtOnce(s, Stale(h, ""), cuts, h, 0);
    BlockAtOnce(s, Stale(h, "-1"), cuts, h, -1);
    Differ(s, Stale(h, ""), Stale(h, "-1"), cuts, cuts);
  }

  lemma DigitShows(s: string, h: nat)
    requires HeaderEnd(Seen(s), 0) == Some(h) && !SelfContained(s[..h]) && h < READ_BUF_SIZE && h == |s|
    ensures !Independent(s)
  {
    StaleValues(h);
    var cuts := BlockFirst(s, h);
    BlockAtOnce(s, Stale(h, ""), cuts, h, 0);
    BlockAtOnce(s, Stale(h, "9"), cuts, h, 9);
    Differ(s, Stale(h, ""), Stale(h, "9"), cuts, cuts);
  }

  lemma NextByteShows(s: string, h: nat)
    requires HeaderEnd(Seen(s), 0) == Some(h) && !SelfContained(s[..h]) && h == READ_BUF_SIZE - 1
    requires h < |s| && Atol(s[h..h + 1]) != 0
    ensures !Independent(s)
  {
    StaleValues(h);
    var mem := Stale(h, "");
    BlockAtOnce(s, mem, BlockFirst(s, h), h, 0);
    BlockWithNextByte(s, mem, BlockFirst(s, READ_BUF_SIZE), h);
    Differ(s, mem, mem, BlockFirst(s, h), BlockFirst(s, READ_BUF_SIZE));
  }

  lemma StaleBytesShow(s: string, h: nat)
    requires HeaderEnd(Seen(s), 0) == Some(h) && !SelfContained(s[..h]) && !NoRoom(s)
    ensures !Independent(s)
  {
    if h + 2 <= READ_BUF_SIZE {
      SignShows(s, h);
    } else if h == |s| {
      DigitShows(s, h);
    } else {
      NextByteShows(s, h);
    }
  }

  /** What is answered to the first request is independent of the chunks and of the old
      buffer contents if and only if no Content-Length value in the block is blank to its
      end, or the block leaves no room for a byte that could matter. */
  lemma IndependentIff(s: string)
    ensures Independent(s) <==> Decidable(s) || NoRoom(s)
  {
    var end := HeaderEnd(Seen(s), 0);
    if Decidable(s) {
      forall mem, cuts: seq<nat> | |mem| == READ_BUF_SIZE && |cuts| >= |s|
        ensures ReadLoop(s, mem, 0, cuts) == Deserved(s)
      {
        FirstRequestIndependentOfChunking(s, mem, cuts);
      }
    } else if NoRoom(s) {
      assert Seen(s)[..end.value] == s[..end.value];
      forall mem, cuts: seq<nat> | |mem| == READ_BUF_SIZE && |cuts| >= |s|
        ensures ReadLoop(s, mem, 0, cuts) == Bodiless(s, end.value)
      {
        assert mem[..0] == s[..0];
        NoRoomOutcome(s, mem, 0, cuts, end.value);
      }
    } else {
      assert Seen(s)[..end.value] == s[..end.value];
      StaleBytesShow(s, end.value);
    }
  }
}
