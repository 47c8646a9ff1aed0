/**
 The loops of memory/mem9/embed-service/http.c, proved against HttpRequest.Parse, and the
 read loop of handle_connection in main.c.  `mem` is the read buffer, pointers into it are
 indices; the request struct is filled in place.
 */
module HttpReader {
  import opened Ascii
  import opened CStrings
  import opened Wrappers
  import opened FloatText
  import opened HttpRequest
  import opened HttpChunks

  /** http_request_t; the body pointer is an offset into the read buffer. */
  class RequestBuffer {
    var httpMethod: Method
    const path: array<char>
    const contentType: array<char>
    var contentLength: nat
    var body: nat
    var bodyLen: nat

    constructor ()
      ensures fresh(path) && fresh(contentType) && Shaped()
    {
      httpMethod := GET;
      path := new char[PATH_CAP];
      contentType := new char[TYPE_CAP];
      contentLength, body, bodyLen := 0, 0, 0;
    }

    predicate Shaped() {
      path.Length == PATH_CAP && contentType.Length == TYPE_CAP && path != contentType
    }

    ghost predicate Is(f: Fields)
      reads this, path, contentType
    {
      && Shaped()
      && httpMethod == f.httpMethod && contentLength == f.contentLength
      && HoldsText(path[..], f.path) && HoldsText(contentType[..], f.contentType)
    }

    /** The fields the struct represents, as a set. */
    ghost function Contents(): iset<Fields>
      reads this, path, contentType
    {
      iset f: Fields | Is(f)
    }

    /** memset to zero; HTTP_GET is the zero of the enumeration. */
    method Reset()
      requires Shaped()
      modifies this, path, contentType
      ensures Fields(GET, "", "", 0) in Contents() && body == 0 && bodyLen == 0
    {
      forall i | 0 <= i < path.Length { path[i] := '\0'; }
      forall i | 0 <= i < contentType.Length { contentType[i] := '\0'; }
      httpMethod, contentLength, body, bodyLen := GET, 0, 0, 0;
    }
  }

  ghost predicate HoldsText(buf: seq<char>, text: string) {
    |text| < |buf| && text <= buf && buf[|text|] == '\0'
  }

  /** memcpy of a text that is cut to the buffer, and the NUL behind it. */
  method CopyCut(out: array<char>, text: string)
    requires out.Length > 0
    modifies out
    ensures HoldsText(out[..], Cut(text, out.Length))
  {
    var len := if |text| >= out.Length then out.Length - 1 else |text|;
    forall i | 0 <= i < len { out[i] := text[i]; }
    out[len] := '\0';
  }

  method FindHeaderEnd(mem: string, n: nat) returns (r: Option<nat>)
    requires n <= |mem|
    ensures r == HeaderEnd(mem[..n], 0)
  {
    var i := 0;
    while i + 3 < n
      invariant 0 <= i && HeaderEnd(mem[..n], i) == HeaderEnd(mem[..n], 0)
      decreases n - i
    {
      if mem[i] == '\r' && mem[i + 1] == '\n' && mem[i + 2] == '\r' && mem[i + 3] == '\n' {
        return Some(i + 4);
      }
      i := i + 1;
    }
    return None;
  }

  /** memcmp(buf, word, |word|) == 0, guarded by the buffer length. */
  method StartsWith(mem: string, n: nat, h: nat, word: string) returns (b: bool)
    requires 4 <= h <= n <= |mem| && Ends(mem, h - 4) && '\r' !in word
    ensures b <==> word <= mem[..h]
    ensures b ==> |word| <= h
  {
    b := n >= |word| && mem[..|word|] == word;
    PrefixInsideHead(mem, h, word);
  }

  /** The header block ends with a carriage return that no method word contains. */
  lemma PrefixInsideHead(mem: string, h: nat, word: string)
    requires 4 <= h <= |mem| && Ends(mem, h - 4) && '\r' !in word
    ensures word <= mem <==> word <= mem[..h]
    ensures word <= mem ==> |word| <= h
  {
    if word <= mem {
      assert forall i | 0 <= i < |word| :: mem[i] == word[i] && word[i] in word;
      assert |word| <= h - 4;
    }
  }

  /** The method, and where the path starts. */
  method ReadMethod(mem: string, n: nat, h: nat) returns (m: Method, p: nat)
    requires 4 <= h <= n <= |mem| && Ends(mem, h - 4)
    ensures p <= h && StartOf(mem[..h]) == Start(m, mem[p..h])
  {
    ghost var head := mem[..h];
    var get := StartsWith(mem, n, h, "GET ");
    if get {
      assert head[4..] == mem[4..h];
      return GET, 4;
    }
    var post := StartsWith(mem, n, h, "POST ");
    if post {
      assert head[5..] == mem[5..h];
      return POST, 5;
    }
    var options := StartsWith(mem, n, h, "OPTIONS ");
    if options {
      assert head[8..] == mem[8..h];
      return OPTIONS, 8;
    }
    p := 0;
    assert mem[0..h] == head;
    while p < h && mem[p] != ' '
      invariant p <= h && AfterMethod(mem[p..h]) == AfterMethod(head)
    {
      assert mem[p..h][1..] == mem[p + 1..h];
      p := p + 1;
    }
    if p < h {
      assert mem[p..h][1..] == mem[p + 1..h];
      p := p + 1;
    }
    m := UNKNOWN;
  }

  method FindPathEnd(mem: string, start: nat, h: nat) returns (p: nat)
    requires start <= h <= |mem|
    ensures start <= p <= h && p - start == PathLength(mem[start..h])
  {
    p := start;
    while p < h && !EndsPath(mem[p])
      invariant start <= p <= h && PathLength(mem[start..h]) == p - start + PathLength(mem[p..h])
    {
      assert mem[p..h][1..] == mem[p + 1..h];
      p := p + 1;
    }
  }

  method FindNewline(mem: string, start: nat, h: nat) returns (p: nat)
    requires start <= h <= |mem|
    ensures start <= p <= h && p - start == IndexOfNewline(mem[start..h])
  {
    p := start;
    while p < h && mem[p] != '\n'
      invariant start <= p <= h && IndexOfNewline(mem[start..h]) == p - start + IndexOfNewline(mem[p..h])
    {
      assert mem[p..h][1..] == mem[p + 1..h];
      p := p + 1;
    }
  }

  /** header_prefix: the comparison cannot run past the newline that ends the block. */
  method HeaderPrefix(mem: string, line: nat, h: nat, word: string) returns (b: bool)
    requires line < h <= |mem| && mem[h - 1] == '\n'
    requires forall c | c in word :: Lower(c) != '\n'
    ensures b <==> HasPrefix(mem[line..h], word)
  {
    var i := 0;
    while i < |word|
      invariant 0 <= i <= |word| && line + i < h
      invariant forall j | 0 <= j < i :: Lower(mem[line + j]) == Lower(word[j])
    {
      if Lower(mem[line + i]) != Lower(word[i]) {
        return false;
      }
      assert word[i] in word;
      assert mem[line + i] != '\n';
      i := i + 1;
    }
    return true;
  }

  method SkipBlanksAt(mem: string, start: nat, end: nat) returns (val: nat)
    requires end <= |mem|
    ensures start <= end ==> start <= val <= end && mem[val..end] == SkipBlanks(mem[start..end])
    ensures start > end ==> val == start
  {
    val := start;
    while val < end && mem[val] == ' '
      invariant start <= val && (start <= end ==> val <= end && SkipBlanks(mem[val..end]) == SkipBlanks(mem[start..end]))
      invariant start > end ==> val == start
    {
      assert mem[val..end][1..] == mem[val + 1..end];
      val := val + 1;
    }
  }

  method AtolAt(mem: string, start: nat) returns (v: int)
    requires start <= |mem|
    ensures v == Atol(mem[start..])
  {
    var p := start;
    while p < |mem| && IsSpace(mem[p])
      invariant start <= p <= |mem| && SkipSpaces(mem[p..]) == SkipSpaces(mem[start..])
    {
      assert mem[p..][1..] == mem[p + 1..];
      p := p + 1;
    }
    assert p < |mem| ==> mem[p..][1..] == mem[p + 1..];
    var negative := p < |mem| && mem[p] == '-';
    if p < |mem| && (mem[p] == '-' || mem[p] == '+') {
      p := p + 1;
    }
    var acc := 0;
    ghost var first := p;
    while p < |mem| && IsDigit(mem[p])
      invariant first <= p <= |mem| && acc >= 0 && AtolDigits(mem[p..], acc) == AtolDigits(mem[first..], 0)
    {
      assert mem[p..][1..] == mem[p + 1..];
      acc := acc * 10 + Digit(mem[p]);
      p := p + 1;
    }
    if negative {
      v := if acc > LONG_MAX + 1 then -LONG_MAX - 1 else -acc;
    } else {
      v := if acc > LONG_MAX then LONG_MAX else acc;
    }
  }

  lemma SliceOfSlice(s: string, a: nat, b: nat, i: nat, j: nat)
    requires a <= b <= |s| && i <= j <= b - a
    ensures s[a..b][i..j] == s[a + i..a + j]
  {
    var t, u := s[a..b][i..j], s[a + i..a + j];
    assert |t| == |u|;
    assert forall k | 0 <= k < |t| :: t[k] == s[a..b][i + k] == s[a + (i + k)] == u[k];
  }

  lemma SplitAt(s: string, i: nat, j: nat)
    requires i <= j <= |s|
    ensures s[i..] == s[i..j] + s[j..]
  {
  }

  /** A header line without its newline and one trailing carriage return. */
  method MeasureLine(mem: string, line: nat, h: nat) returns (next: nat, lineLen: nat)
    requires line < h <= |mem| && mem[h - 1] == '\n'
    ensures line < next <= h && mem[next..h] == AfterNewline(mem[line..h])
    ensures lineLen == LineLength(mem[line..h])
  {
    ghost var s := mem[line..h];
    var p := FindNewline(mem, line, h);
    assert p < h by { assert s[h - 1 - line] == '\n'; }
    lineLen := p - line;
    next := p + 1;
    SliceOfSlice(mem, line, h, lineLen + 1, h - line);
    assert s[lineLen + 1..] == s[lineLen + 1..h - line];
    if lineLen > 0 && mem[line + lineLen - 1] == '\r' {
      lineLen := lineLen - 1;
    }
  }

  /** One header line: stores the field it carries. */
  method ReadLineAt(mem: string, line: nat, h: nat, req: RequestBuffer, ghost f: Fields) returns (next: nat)
    requires line < h <= |mem| && mem[h - 1] == '\n' && f in req.Contents()
    modifies req`contentLength, req.contentType
    ensures line < next <= h && mem[next..h] == AfterNewline(mem[line..h])
    ensures ReadLine(f, mem[line..h], mem[h..]) in req.Contents()
  {
    var lineLen;
    next, lineLen := MeasureLine(mem, line, h);
    var isLength := HeaderPrefix(mem, line, h, "content-length:");
    var isType := HeaderPrefix(mem, line, h, "content-type:");
    if isLength {
      var v := ReadLength(mem, line, lineLen, h);
      req.contentLength := ToSize(v);
    } else if isType {
      var t := ReadType(mem, line, lineLen, h);
      CopyCut(req.contentType, t);
    }
  }

  method ReadLength(mem: string, line: nat, lineLen: nat, h: nat) returns (v: int)
    requires line + 15 <= h <= |mem| && line + lineLen <= h && lineLen == LineLength(mem[line..h])
    ensures v == Atol(ValueFrom(mem[line..h], 15) + mem[h..])
  {
    var val := SkipBlanksAt(mem, line + 15, line + lineLen);
    ValueInMemory(mem, line, lineLen, h, val);
    v := AtolAt(mem, val);
  }

  method ReadType(mem: string, line: nat, lineLen: nat, h: nat) returns (t: string)
    requires line + lineLen <= h <= |mem| && lineLen == LineLength(mem[line..h])
    ensures t == TypeOf(mem[line..h])
  {
    var val := SkipBlanksAt(mem, line + 13, line + lineLen);
    if val > line + lineLen {
      return "";
    }
    t := mem[val..line + lineLen];
    if 13 < lineLen {
      SliceOfSlice(mem, line, h, 13, lineLen);
    }
  }

  /** What atol reads from: the value, the rest of the block and the memory behind it. */
  lemma ValueInMemory(mem: string, line: nat, lineLen: nat, h: nat, val: nat)
    requires line + lineLen <= h <= |mem| && line + 15 <= h && lineLen == LineLength(mem[line..h])
    requires line + 15 <= line + lineLen ==>
      && line + 15 <= val <= line + lineLen
      && mem[val..line + lineLen] == SkipBlanks(mem[line + 15..line + lineLen])
    requires line + 15 > line + lineLen ==> val == line + 15
    ensures val <= |mem| && mem[val..] == ValueFrom(mem[line..h], 15) + mem[h..]
  {
    var s := mem[line..h];
    if 15 < lineLen {
      SliceOfSlice(mem, line, h, 15, lineLen);
      SliceOfSlice(mem, line, h, lineLen, h - line);
      assert s[lineLen..] == s[lineLen..h - line];
      SplitAt(mem, val, line + lineLen);
      SplitAt(mem, line + lineLen, h);
    } else {
      assert val == line + 15;
      assert s[15..] == mem[line + 15..h];
      SplitAt(mem, val, h);
    }
  }

  method ReadLinesAt(mem: string, start: nat, h: nat, req: RequestBuffer, ghost f: Fields)
    requires 0 < h <= |mem| && start <= h && mem[h - 1] == '\n' && f in req.Contents()
    modifies req`contentLength, req.contentType
    ensures ReadLines(f, mem[start..h], mem[h..]) in req.Contents()
  {
    var p := start;
    ghost var g := f;
    while p < h
      invariant p <= h && g in req.Contents()
      invariant ReadLines(g, mem[p..h], mem[h..]) == ReadLines(f, mem[start..h], mem[h..])
      decreases h - p
    {
      if mem[p] == '\r' || mem[p] == '\n' {
        break;
      }
      ghost var line := mem[p..h];
      p := ReadLineAt(mem, p, h, req, g);
      g := ReadLine(g, line, mem[h..]);
    }
  }

  /** Everything up to the end of the header block. */
  method ReadHead(mem: string, n: nat, h: nat, req: RequestBuffer)
    requires 4 <= h <= n <= |mem| && Ends(mem, h - 4)
    requires Fields(GET, "", "", 0) in req.Contents()
    modifies req`httpMethod, req`contentLength, req.path, req.contentType
    ensures ParseHead(mem[..h], mem[h..]) in req.Contents()
  {
    var e := ReadRequestLine(mem, n, h, req);
    var p := FindNewline(mem, e, h);
    if p < h {
      assert mem[e..h][p - e + 1..] == mem[p + 1..h];
      p := p + 1;
    }
    assert mem[p..h] == LinesOf(mem[..h]);
    ReadLinesAt(mem, p, h, req, RequestLine(mem[..h]));
  }

  /** Method and path; returns where the path ends. */
  method ReadRequestLine(mem: string, n: nat, h: nat, req: RequestBuffer) returns (e: nat)
    requires 4 <= h <= n <= |mem| && Ends(mem, h - 4)
    requires Fields(GET, "", "", 0) in req.Contents()
    modifies req`httpMethod, req.path
    ensures RequestLine(mem[..h]) in req.Contents()
    ensures e <= h && LinesOf(mem[..h]) == AfterNewline(mem[e..h])
  {
    var m, p := ReadMethod(mem, n, h);
    req.httpMethod := m;
    ghost var rest := mem[p..h];
    e := FindPathEnd(mem, p, h);
    assert rest[..e - p] == mem[p..e] && rest[e - p..] == mem[e..h];
    CopyCut(req.path, mem[p..e]);
  }

  /** The C return value: bytes consumed, 0 for more data needed, -1 for an error. */
  function ReturnValue(v: Verdict): (r: int)
    ensures r > 0 ==> v.Complete?
  {
    match v
    case NeedMore => 0
    case Malformed => -1
    case Complete(total, _, _) => total
  }

  method HttpParseRequest(mem: string, n: nat, req: RequestBuffer) returns (r: int)
    requires n <= |mem| && req.Shaped()
    modifies req, req.path, req.contentType
    ensures r == ReturnValue(Parse(mem, n))
    ensures Parse(mem, n).Complete? ==>
      && Parse(mem, n).fields in req.Contents()
      && req.body + req.bodyLen <= n
      && mem[req.body..req.body + req.bodyLen] == Parse(mem, n).body
  {
    req.Reset();
    var headerEnd := FindHeaderEnd(mem, n);
    if headerEnd.None? {
      return if n > HTTP_MAX_HEADER_SIZE then -1 else 0;
    }
    var h := headerEnd.value;
    HeaderEndIsFirst(mem[..n], 0);
    assert Ends(mem, h - 4);
    ReadHead(mem, n, h, req);
    r := JudgeRequest(mem, n, h, req, ParseHead(mem[..h], mem[h..]));
  }

  /** The end of http_parse_request: is the body there? */
  method JudgeRequest(mem: string, n: nat, h: nat, req: RequestBuffer, ghost f: Fields) returns (r: int)
    requires h <= n <= |mem| && f in req.Contents() && req.body == req.bodyLen == 0
    modifies req`body, req`bodyLen
    ensures r == ReturnValue(Judge(f, mem, h, n)) && f in req.Contents()
    ensures Judge(f, mem, h, n).Complete? ==>
      && req.body + req.bodyLen <= n
      && mem[req.body..req.body + req.bodyLen] == Judge(f, mem, h, n).body
  {
    if req.contentLength > 0 {
      if req.contentLength > HTTP_MAX_BODY_SIZE {
        return -1;
      }
      var available := n - h;
      if available < req.contentLength {
        return 0;
      }
      req.body := h;
      req.bodyLen := req.contentLength;
    }
    return h + req.contentLength;
  }

  /** The fields of a request that was answered. */
  function FieldsOf(o: Outcome): Fields {
    if o.Answer? && o.v.Complete? then o.v.fields else Fields(UNKNOWN, "", "", 0)
  }

  /** The outcome of the loop from here on, as a set. */
  ghost function Outcomes(s: string, mem: string, total: nat, cuts: seq<nat>): iset<Outcome>
    requires |mem| == READ_BUF_SIZE && total <= |s| && total <= READ_BUF_SIZE
  {
    iset o: Outcome | IsOutcome(o, s, mem, total, cuts)
  }

  predicate IsOutcome(o: Outcome, s: string, mem: string, total: nat, cuts: seq<nat>)
    requires |mem| == READ_BUF_SIZE && total <= |s| && total <= READ_BUF_SIZE
  {
    o == ReadLoop(s, mem, total, cuts)
  }

  lemma LoopOver(s: string, mem: string, total: nat, cuts: seq<nat>, outcome: Outcome)
    requires |mem| == READ_BUF_SIZE && total <= |s| && total <= READ_BUF_SIZE
    requires outcome in Outcomes(s, mem, total, cuts) && (total == READ_BUF_SIZE || cuts == [] || total == |s|)
    ensures OutcomeValue(outcome) == 0
  {
  }

  lemma LoopGoesOn(s: string, mem: string, total: nat, cuts: seq<nat>, outcome: Outcome, mem': string, n: nat, r: int)
    requires |mem| == READ_BUF_SIZE && total < |s| && total < READ_BUF_SIZE && cuts != []
    requires outcome in Outcomes(s, mem, total, cuts)
    requires n == Arrival(s, total, cuts[0]) && mem' == AfterRecv(s, mem, total, n)
    requires r == ReturnValue(Parse(mem', total + n))
    ensures r == 0 ==> outcome in Outcomes(s, mem', total + n, cuts[1..])
    ensures r != 0 ==> r == OutcomeValue(outcome) && FieldsOf(outcome) == FieldsOf(Answer(Parse(mem', total + n)))
  {
    ReadLoopTurn(s, mem, total, cuts);
    CompleteIsPositive(mem', total + n);
  }

  lemma CompleteIsPositive(mem: string, n: nat)
    requires n <= |mem|
    ensures ReturnValue(Parse(mem, n)) == 0 <==> Parse(mem, n).NeedMore?
  {
    HeaderEndIsFirst(mem[..n], 0);
  }

  /** The read loop of handle_connection for one request.  `s` is what the peer sends and
      `cuts` how many bytes each recv asks the network for. */
  method ReadRequest(s: string, buf: array<char>, cuts: seq<nat>, req: RequestBuffer) returns (r: int)
    requires buf.Length == READ_BUF_SIZE && req.Shaped() && buf != req.path && buf != req.contentType
    modifies buf, req, req.path, req.contentType
    ensures r == OutcomeValue(ReadLoop(s, old(buf[..]), 0, cuts))
    ensures r > 0 ==> FieldsOf(ReadLoop(s, old(buf[..]), 0, cuts)) in req.Contents()
  {
    r := ReadUntil(s, buf, cuts, req, ReadLoop(s, buf[..], 0, cuts));
  }

  method ReadUntil(s: string, buf: array<char>, cuts: seq<nat>, req: RequestBuffer, ghost outcome: Outcome) returns (r: int)
    requires buf.Length == READ_BUF_SIZE && req.Shaped() && buf != req.path && buf != req.contentType
    requires outcome in Outcomes(s, buf[..], 0, cuts)
    modifies buf, req, req.path, req.contentType
    ensures r == OutcomeValue(outcome)
    ensures r > 0 ==> FieldsOf(outcome) in req.Contents()
  {
    var total: nat, i: nat := 0, 0;
    assert cuts[0..] == cuts;
    while total < READ_BUF_SIZE
      invariant total <= |s| && total <= READ_BUF_SIZE && i <= |cuts|
      invariant outcome in Outcomes(s, buf[..], total, cuts[i..])
      decreases |cuts| - i
    {
      if i == |cuts| || total == |s| {
        LoopOver(s, buf[..], total, cuts[i..], outcome);
        return 0;  // connection closed or timed out
      }
      var n;
      ghost var rest := cuts[i..];
      assert rest[0] == cuts[i] && rest[1..] == cuts[i + 1..];
      ghost var before := buf[..];
      n, r := RecvAndParse(s, buf, total, cuts[i], req);
      LoopGoesOn(s, before, total, rest, outcome, buf[..], n, r);
      if r != 0 {
        return r;
      }
      total := total + n;
      i := i + 1;
    }
    LoopOver(s, buf[..], total, cuts[i..], outcome);
    return 0;
  }

  /** One recv and one attempt at parsing. */
  method RecvAndParse(s: string, buf: array<char>, total: nat, cut: nat, req: RequestBuffer) returns (n: nat, r: int)
    requires buf.Length == READ_BUF_SIZE && req.Shaped() && buf != req.path && buf != req.contentType
    requires total < |s| && total < READ_BUF_SIZE
    modifies buf, req, req.path, req.contentType
    ensures n == Arrival(s, total, cut) && buf[..] == AfterRecv(s, old(buf[..]), total, n)
    ensures r == ReturnValue(Parse(buf[..], total + n))
    ensures r > 0 ==> FieldsOf(Answer(Parse(buf[..], total + n))) in req.Contents()
  {
    n := RecvSome(s, buf, total, cut);
    r := ParseInto(buf[..], total + n, req);
  }

  method RecvSome(s: string, buf: array<char>, total: nat, cut: nat) returns (n: nat)
    requires buf.Length == READ_BUF_SIZE && total < |s| && total < READ_BUF_SIZE
    modifies buf
    ensures n == Arrival(s, total, cut) && buf[..] == AfterRecv(s, old(buf[..]), total, n)
  {
    n := Arrival(s, total, cut);
    Recv(buf, total, s[total..total + n]);
  }

  method ParseInto(mem: string, n: nat, req: RequestBuffer) returns (r: int)
    requires n <= |mem| && req.Shaped()
    modifies req, req.path, req.contentType
    ensures r == ReturnValue(Parse(mem, n))
    ensures r > 0 ==> FieldsOf(Answer(Parse(mem, n))) in req.Contents()
  {
    r := HttpParseRequest(mem, n, req);
  }

  /** recv: the bytes land behind those already read. */
  method Recv(buf: array<char>, at: nat, bytes: string)
    requires at + |bytes| <= buf.Length
    modifies buf
    ensures buf[..] == old(buf[..at]) + bytes + old(buf[at + |bytes|..])
  {
    forall i | 0 <= i < |bytes| {
      buf[at + i] := bytes[i];
    }
  }

  /** How the loop ends: a request, an error answer, or a closed connection. */
  function OutcomeValue(o: Outcome): int {
    match o
    case Closed => 0
    case Answer(v) => ReturnValue(v)
  }
}
