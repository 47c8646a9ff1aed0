/**
 The parser against a grammar of well-formed requests (sections 2 to 5 of RFC 9112): request
 line, header lines, and as many bytes of body as the last Content-Length says.  HttpFraming
 compares that length with the standard's.
 */
module HttpMessage {
  import opened Ascii
  import opened CStrings
  import opened Wrappers
  import opened JsonGrammar
  import opened FloatText
  import opened HttpRequest
  import opened HttpChunks

  /** A Content-Length line carries a decimal number between optional white space. */
  datatype Header =
    | Length(name: string, before: string, digits: string, after: string)
    | Other(name: string, value: string)

  datatype Message = Message(word: string, path: string, version: string, headers: seq<Header>)

  predicate Plain(s: string) {
    forall c | c in s :: c != '\r' && c != '\n'
  }

  predicate Token(s: string) {
    s != "" && Plain(s) && ' ' !in s
  }

  predicate Inline(s: string) {
    forall c | c in s :: c == ' ' || c == '\t'
  }

  predicate HeaderOk(h: Header) {
    && Token(h.name) && ':' !in h.name
    && match h
       case Length(name, before, digits, after) =>
         && LowerAll(name) == "content-length"
         && Inline(before) && Inline(after) && digits != "" && AllDigits(digits)
       case Other(name, value) => LowerAll(name) != "content-length" && Plain(value)
  }

  predicate MessageOk(m: Message) {
    && Token(m.word) && Token(m.path) && Plain(m.version)
    && forall h | h in m.headers :: HeaderOk(h)
  }

  function HeaderValue(h: Header): string {
    match h
    case Length(_, before, digits, after) => before + (digits + after)
    case Other(_, value) => value
  }

  /** Text of a header line, followed by k. */
  function HeaderText(h: Header, k: string): string {
    h.name + ([':'] + (HeaderValue(h) + ("\r\n" + k)))
  }

  function HeadersText(hs: seq<Header>, k: string): string {
    if hs == [] then k else HeaderText(hs[0], HeadersText(hs[1..], k))
  }

  /** The request up to and including the empty line, followed by k. */
  function MessageText(m: Message, k: string): string {
    m.word + ([' '] + (m.path + ([' '] + (m.version + ("\r\n" + HeadersText(m.headers, "\r\n" + k))))))
  }

  // What the request says

  function MethodOf(word: string): Method {
    if word == "GET" then GET
    else if word == "POST" then POST
    else if word == "OPTIONS" then OPTIONS
    else UNKNOWN
  }

  function Clamp(v: nat): nat {
    if v > LONG_MAX then LONG_MAX else v
  }

  function HeaderMeaning(f: Fields, h: Header): Fields
    requires HeaderOk(h)
  {
    match h
    case Length(_, _, digits, _) => f.(contentLength := Clamp(DigitsValue(digits)))
    case Other(name, value) =>
      if LowerAll(name) == "content-type" then f.(contentType := Cut(SkipBlanks(value), TYPE_CAP)) else f
  }

  /** The header lines in order: the last Content-Length and Content-Type win. */
  function HeadersMeaning(f: Fields, hs: seq<Header>): Fields
    requires forall h | h in hs :: HeaderOk(h)
    decreases |hs|
  {
    if hs == [] then f else HeadersMeaning(HeaderMeaning(f, hs[0]), hs[1..])
  }

  function MessageFields(m: Message): Fields
    requires MessageOk(m)
  {
    HeadersMeaning(Fields(MethodOf(m.word), Cut(m.path, PATH_CAP), "", 0), m.headers)
  }

  // ---------------------------------------------------------------------------
  // Reading a decimal number
  // ---------------------------------------------------------------------------

  /** atol's accumulation computes the value of the digits. */
  lemma {:induction false} AccumulatesValue(ds: string, k: string, acc: nat)
    requires AllDigits(ds) && (k == "" || !IsDigit(k[0]))
    ensures AtolDigits(ds + k, acc) == acc * Pow10(|ds|) + DigitsValue(ds)
    decreases |ds|
  {
    if ds == "" {
      assert ds + k == k;
    } else {
      assert ds[0] in ds;
      assert (ds + k)[1..] == ds[1..] + k;
      var d, p := Digit(ds[0]), Pow10(|ds| - 1);
      AccumulatesValue(ds[1..], k, acc * 10 + d);
      Recombine(acc, d, p);
      assert acc * 10 + d == 10 * acc + d;
    }
  }

  lemma {:induction false} InlineSkipped(ws: string, k: string)
    requires Inline(ws)
    ensures SkipSpaces(ws + k) == SkipSpaces(k)
  {
    if ws != "" {
      assert ws[0] in ws;
      assert forall c | c in ws[1..] :: c in ws;
      assert (ws + k)[1..] == ws[1..] + k;
      InlineSkipped(ws[1..], k);
    } else {
      assert ws + k == k;
    }
  }

  lemma AtolOfNumber(before: string, digits: string, k: string)
    requires Inline(before) && digits != "" && AllDigits(digits) && (k == "" || !IsDigit(k[0]))
    ensures Atol(before + (digits + k)) == Clamp(DigitsValue(digits))
  {
    InlineSkipped(before, digits + k);
    assert digits[0] in digits;
    assert SkipSpaces(digits + k) == digits + k;
    AccumulatesValue(digits, k, 0);
  }

  /** atol on any text that holds a number: white space, a sign, digits; saturating in 64
      bits. */
  lemma AtolOfText(before: string, sign: string, digits: string, k: string)
    requires AllSpace(before) && sign in {"", "+", "-"} && digits != "" && AllDigits(digits) && (k == "" || !IsDigit(k[0]))
    ensures var v: int := DigitsValue(digits);
      var max: int := 0x7fff_ffff_ffff_ffff;
      Atol(before + (sign + (digits + k)))
      == if sign == "-" then (if v > max + 1 then -max - 1 else -v) else if v > max then max else v
  {
    var t := sign + (digits + k);
    AllSpaceSkipped(before, t);
    assert digits[0] in digits;
    assert t[0] == if sign == "" then digits[0] else sign[0];
    assert SkipSpaces(t) == t;
    assert (digits + k)[0] == digits[0];
    assert sign != "" ==> t[1..] == digits + k;
    assert sign == "" ==> t == digits + k;
    AccumulatesValue(digits, k, 0);
  }

  // ---------------------------------------------------------------------------
  // One header line
  // ---------------------------------------------------------------------------

  lemma {:induction false} NewlineBehind(s: string, k: string)
    requires forall c | c in s :: c != '\n'
    ensures IndexOfNewline(s + (['\n'] + k)) == |s|
  {
    if s != "" {
      assert s[0] in s;
      assert forall c | c in s[1..] :: c in s;
      assert (s + (['\n'] + k))[1..] == s[1..] + (['\n'] + k);
      NewlineBehind(s[1..], k);
    } else {
      assert s + (['\n'] + k) == ['\n'] + k;
    }
  }

  /** A line of the form text CR LF: its length and what follows it. */
  lemma LineShape(line: string, k: string)
    requires Plain(line)
    ensures LineLength(line + ("\r\n" + k)) == |line|
    ensures AfterNewline(line + ("\r\n" + k)) == k
  {
    var s := line + ("\r\n" + k);
    assert s == (line + ['\r']) + (['\n'] + k);
    NewlineBehind(line + ['\r'], k);
    assert s[|line|] == '\r' && s[|line| + 2..] == k;
  }

  /** The prefix test compares the whole name. */
  lemma PrefixIsName(name: string, rest: string, word: string)
    requires ':' !in name && ':' !in word && LowerAll(word) == word
    ensures HasPrefix(name + ([':'] + rest), word + ":") <==> LowerAll(name) == word
  {
    var s, w := name + ([':'] + rest), word + ":";
    assert s[|name|] == ':' && forall i | 0 <= i < |name| :: s[i] == name[i] && name[i] in name;
    assert forall i | 0 <= i < |word| :: w[i] == word[i] && word[i] in word && Lower(word[i]) == LowerAll(word)[i];
    if LowerAll(name) == word {
      assert |name| == |word|;
      assert forall i | 0 <= i < |word| :: Lower(s[i]) == LowerAll(name)[i];
    }
    if HasPrefix(s, w) {
      assert Lower(s[|word|]) == Lower(w[|word|]) == ':';
      assert forall i | 0 <= i < |word| :: Lower(s[i]) == Lower(w[i]);
      assert |name| == |word|;
      assert forall i | 0 <= i < |name| :: LowerAll(name)[i] == word[i];
    }
  }

  predicate IsName(s: string) {
    ':' !in s && LowerAll(s) == s
  }

  lemma KnownNames()
    ensures IsName("content-length") && IsName("content-type")
    ensures "content-length" + ":" == "content-length:" && "content-type" + ":" == "content-type:"
  {
  }

  lemma {:induction false} BlanksKept(s: string, k: string)
    requires k != "" && k[0] != ' '
    ensures SkipBlanks(s + k) == SkipBlanks(s) + k
  {
    if s != "" && s[0] == ' ' {
      assert (s + k)[1..] == s[1..] + k;
      BlanksKept(s[1..], k);
    } else if s == "" {
      assert s + k == k;
    }
  }

  lemma {:induction false} BlanksOfInline(ws: string, k: string)
    requires Inline(ws) && (k == "" || k[0] != ' ')
    ensures exists ws' :: Inline(ws') && SkipBlanks(ws + k) == ws' + k
  {
    if ws == "" || ws[0] != ' ' {
      assert SkipBlanks(ws + k) == ws + k by {
        if ws == "" { assert ws + k == k; }
      }
    } else {
      assert ws[0] in ws;
      assert forall c | c in ws[1..] :: c in ws;
      assert (ws + k)[1..] == ws[1..] + k;
      BlanksOfInline(ws[1..], k);
    }
  }

  lemma LineOfHeader(h: Header, k: string)
    requires HeaderOk(h)
    ensures AfterNewline(HeaderText(h, k)) == k
    ensures Plain(h.name + ([':'] + HeaderValue(h)))
    ensures HeaderText(h, k) == (h.name + ([':'] + HeaderValue(h))) + ("\r\n" + k)
  {
    var value := HeaderValue(h);
    var line := h.name + ([':'] + value);
    assert Plain(value) by {
      if h.Length? {
        assert forall c | c in value :: c in h.before || c in h.digits || c in h.after;
      }
    }
    assert Plain(line) by {
      assert forall c | c in line :: c in h.name || c == ':' || c in value;
    }
    assert HeaderText(h, k) == line + ("\r\n" + k);
    LineShape(line, k);
  }

  /** A line goes up to its newline, less one carriage return in front of it, and a line that
      starts with either of the two ends the headers. */
  lemma LineIs(line: string, k: string, f: Fields, beyond: string)
    requires '\n' !in line
    ensures var s := line + (['\n'] + k);
      && AfterNewline(s) == k
      && LineLength(s) == (if line != "" && line[|line| - 1] == '\r' then |line| - 1 else |line|)
      && (line == "" || line[0] == '\r' ==> ReadLines(f, s, beyond) == f)
  {
    NewlineBehind(line, k);
    var s := line + (['\n'] + k);
    assert s[|line| + 1..] == k;
    assert line != "" ==> s[|line| - 1] == line[|line| - 1];
  }

  /** The path goes up to the first space or end of line. */
  lemma {:induction false} PathIsFirstWord(s: string)
    ensures var n := PathLength(s);
      (forall i | 0 <= i < n :: s[i] !in " \r\n") && (n < |s| ==> s[n] in " \r\n")
  {
    if s != "" && s[0] !in " \r\n" {
      PathIsFirstWord(s[1..]);
      var n := PathLength(s);
      assert forall i | 0 < i < n :: s[i] == s[1..][i - 1];
      assert n < |s| ==> s[n] == s[1..][n - 1];
    }
  }

  lemma LengthLineRead(f: Fields, h: Header, k: string, beyond: string)
    requires HeaderOk(h) && h.Length?
    ensures ReadLine(f, HeaderText(h, k), beyond) == HeaderMeaning(f, h)
  {
    var value := HeaderValue(h);
    var s := HeaderText(h, k);
    KnownNames();
    PrefixIsName(h.name, value + ("\r\n" + k), "content-length");
    assert |h.name| == 14 by { assert |LowerAll(h.name)| == |h.name|; }
    var line := h.name + ([':'] + value);
    LineOfHeader(h, k);
    LineShape(line, k);
    var tail := h.after + ("\r\n" + k);
    assert s[15..|line|] == value && s[|line|..] == "\r\n" + k;
    assert h.digits[0] in h.digits;
    BlanksOfInline(h.before, h.digits + h.after);
    var ws' :| Inline(ws') && SkipBlanks(h.before + (h.digits + h.after)) == ws' + (h.digits + h.after);
    assert ValueFrom(s, 15) + beyond == ws' + (h.digits + (tail + beyond));
    assert h.after != "" ==> h.after[0] in h.after && (tail + beyond)[0] == h.after[0];
    AtolOfNumber(ws', h.digits, tail + beyond);
  }

  lemma OtherLineRead(f: Fields, h: Header, k: string, beyond: string)
    requires HeaderOk(h) && h.Other?
    ensures ReadLine(f, HeaderText(h, k), beyond) == HeaderMeaning(f, h)
  {
    var s := HeaderText(h, k);
    KnownNames();
    PrefixIsName(h.name, h.value + ("\r\n" + k), "content-length");
    PrefixIsName(h.name, h.value + ("\r\n" + k), "content-type");
    if LowerAll(h.name) == "content-type" {
      TypeValue(h, k);
    }
  }

  /** The value of a Content-Type line. */
  lemma TypeValue(h: Header, k: string)
    requires HeaderOk(h) && h.Other? && LowerAll(h.name) == "content-type"
    ensures var s := HeaderText(h, k);
      LineLength(s) >= 13 && s[13..LineLength(s)] == h.value
  {
    assert |h.name| == 12 by { assert |LowerAll(h.name)| == |h.name|; }
    var line := h.name + ([':'] + h.value);
    LineOfHeader(h, k);
    LineShape(line, k);
    assert HeaderText(h, k)[13..|line|] == h.value;
  }

  lemma {:induction false} HeadersRead(f: Fields, hs: seq<Header>, k: string, beyond: string)
    requires forall h | h in hs :: HeaderOk(h)
    ensures ReadLines(f, HeadersText(hs, "\r\n" + k), beyond) == HeadersMeaning(f, hs)
    decreases |hs|
  {
    if hs != [] {
      var h, rest := hs[0], HeadersText(hs[1..], "\r\n" + k);
      assert h in hs;
      var s := HeaderText(h, rest);
      if h.Length? { LengthLineRead(f, h, rest, beyond); } else { OtherLineRead(f, h, rest, beyond); }
      StartsVisibly(h, rest);
      LineOfHeader(h, rest);
      HeadersRead(HeaderMeaning(f, h), hs[1..], k, beyond);
    }
  }

  // ---------------------------------------------------------------------------
  // The request line
  // ---------------------------------------------------------------------------

  lemma {:induction false} UnknownMethodSkipped(word: string, k: string)
    requires ' ' !in word
    ensures AfterMethod(word + ([' '] + k)) == k
  {
    if word != "" {
      assert word[0] in word;
      assert ' ' !in word[1..];
      assert (word + ([' '] + k))[1..] == word[1..] + ([' '] + k);
      UnknownMethodSkipped(word[1..], k);
    } else {
      assert word + ([' '] + k) == [' '] + k;
      assert ([' '] + k)[1..] == k;
    }
  }

  /** The three known methods are matched as whole words. */
  lemma KnownMethod(word: string, k: string, known: string)
    requires ' ' !in word && ' ' !in known
    ensures known + " " <= word + ([' '] + k) <==> word == known
  {
    var s, w := word + ([' '] + k), known + " ";
    assert s[|word|] == ' ' && forall i | 0 <= i < |word| :: s[i] == word[i] && word[i] in word;
    if word == known {
      assert s == w + k;
    }
    if w <= s {
      assert forall i | 0 <= i < |known| :: s[i] == w[i] == known[i] && known[i] in known;
      assert s[|known|] == w[|known|] == ' ';
      assert |word| == |known|;
      assert word == s[..|word|] == known;
    }
  }

  lemma StartRead(word: string, k: string)
    requires ' ' !in word
    ensures StartOf(word + ([' '] + k)) == Start(MethodOf(word), k)
  {
    var s := word + ([' '] + k);
    KnownMethod(word, k, "GET");
    KnownMethod(word, k, "POST");
    KnownMethod(word, k, "OPTIONS");
    assert "GET" + " " == "GET " && "POST" + " " == "POST " && "OPTIONS" + " " == "OPTIONS ";
    UnknownMethodSkipped(word, k);
    assert s[|word| + 1..] == k;
  }

  lemma {:induction false} PathMeasured(path: string, k: string)
    requires Plain(path) && ' ' !in path
    ensures PathLength(path + ([' '] + k)) == |path|
  {
    if path != "" {
      assert path[0] in path;
      assert forall c | c in path[1..] :: c in path;
      assert (path + ([' '] + k))[1..] == path[1..] + ([' '] + k);
      PathMeasured(path[1..], k);
    } else {
      assert path + ([' '] + k) == [' '] + k;
    }
  }

  lemma HeadRead(m: Message, beyond: string)
    requires MessageOk(m)
    ensures ParseHead(MessageText(m, ""), beyond) == MessageFields(m)
  {
    var lines := HeadersText(m.headers, "\r\n" + "");
    var version := m.version + ("\r\n" + lines);
    var rest := m.path + ([' '] + version);
    StartRead(m.word, rest);
    PathMeasured(m.path, version);
    assert rest[..|m.path|] == m.path && rest[|m.path|..] == [' '] + version;
    assert [' '] + version == ([' '] + m.version) + ("\r\n" + lines);
    LineShape([' '] + m.version, lines);
    HeadersRead(RequestLine(MessageText(m, "")), m.headers, "", beyond);
  }

  // ---------------------------------------------------------------------------
  // Finding the end of the header block
  // ---------------------------------------------------------------------------

  /** No empty line among the first n positions. */
  predicate NoEnd(s: string, n: nat) {
    forall j: nat | j < n :: !Ends(s, j)
  }

  lemma LineHasNoEnd(line: string, k: string, n: nat)
    requires Plain(line) && NoEnd(k, n)
    requires k != "" && k[0] != '\r'
    ensures NoEnd(line + ("\r\n" + k), |line| + 2 + n)
  {
    var s := line + ("\r\n" + k);
    forall j: nat | j < |line| + 2 + n
      ensures !Ends(s, j)
    {
      if j < |line| {
        assert s[j] == line[j] && line[j] in line;
      } else if j == |line| {
        assert s[j + 2] == k[0];
      } else if j >= |line| + 2 && j + 3 < |s| {
        var i := j - |line| - 2;
        assert s[j] == k[i] && s[j + 1] == k[i + 1] && s[j + 2] == k[i + 2] && s[j + 3] == k[i + 3];
        assert !Ends(k, i);
      }
    }
  }

  lemma EmptyLineEnds(line: string, k: string)
    requires Plain(line)
    ensures HeaderEnd(line + ("\r\n" + ("\r\n" + k)), 0) == Some(|line| + 4)
  {
    var s := line + ("\r\n" + ("\r\n" + k));
    forall j: nat | j < |line|
      ensures !Ends(s, j)
    {
      assert s[j] == line[j] && line[j] in line;
    }
    OnlyEnd(s, |line| + 4);
  }

  lemma LinePrepended(line: string, t: string, h: nat)
    requires Plain(line) && t != "" && t[0] != '\r' && HeaderEnd(t, 0) == Some(h)
    ensures HeaderEnd(line + ("\r\n" + t), 0) == Some(|line| + 2 + h)
  {
    FoundEnd(t, h);
    LineHasNoEnd(line, t, h - 4);
    EndsShifted(line, t, h - 4);
    OnlyEnd(line + ("\r\n" + t), |line| + 2 + h);
  }

  lemma FoundEnd(s: string, h: nat)
    requires HeaderEnd(s, 0) == Some(h)
    ensures h >= 4 && NoEnd(s, h - 4) && Ends(s, h - 4)
  {
    HeaderEndIsFirst(s, 0);
  }

  lemma OnlyEnd(s: string, h: nat)
    requires h >= 4 && NoEnd(s, h - 4) && Ends(s, h - 4)
    ensures HeaderEnd(s, 0) == Some(h)
  {
    HeaderEndIsFirst(s, 0);
  }

  /** From the line before the headers to the empty line behind them. */
  lemma {:induction false} HeadersEndOnce(line: string, hs: seq<Header>, k: string)
    requires Plain(line) && forall h | h in hs :: HeaderOk(h)
    ensures var s := line + ("\r\n" + HeadersText(hs, "\r\n" + k));
      |s| >= |k| && HeaderEnd(s, 0) == Some(|s| - |k|)
    decreases |hs|
  {
    if hs == [] {
      EmptyLineEnds(line, k);
    } else {
      var h, rest := hs[0], HeadersText(hs[1..], "\r\n" + k);
      assert h in hs;
      LineOfHeader(h, rest);
      HeadersEndOnce(h.name + ([':'] + HeaderValue(h)), hs[1..], k);
      StartsVisibly(h, rest);
      LinePrepended(line, HeaderText(h, rest), |HeaderText(h, rest)| - |k|);
    }
  }

  lemma StartsVisibly(h: Header, k: string)
    requires HeaderOk(h)
    ensures HeaderText(h, k) != "" && HeaderText(h, k)[0] != '\r' && HeaderText(h, k)[0] != '\n'
  {
    assert HeaderText(h, k)[0] == h.name[0] && h.name[0] in h.name;
  }

  lemma EndsShifted(line: string, t: string, j: nat)
    requires Ends(t, j)
    ensures Ends(line + ("\r\n" + t), |line| + 2 + j)
  {
  }

  lemma MessageEnd(m: Message, k: string)
    requires MessageOk(m)
    ensures HeaderEnd(MessageText(m, k), 0) == Some(|MessageText(m, k)| - |k|)
  {
    var line := m.word + ([' '] + (m.path + ([' '] + m.version)));
    assert Plain(line) by {
      assert forall c | c in line :: c in m.word || c == ' ' || c in m.path || c in m.version;
    }
    var s := MessageText(m, k);
    assert s == line + ("\r\n" + HeadersText(m.headers, "\r\n" + k));
    HeadersEndOnce(line, m.headers, k);
  }

  lemma {:induction false} HeadersTextAppends(hs: seq<Header>, k: string, k': string)
    ensures HeadersText(hs, k + k') == HeadersText(hs, k) + k'
    decreases |hs|
  {
    if hs != [] {
      HeadersTextAppends(hs[1..], k, k');
      var a, b := HeadersText(hs[1..], k), HeaderValue(hs[0]);
      Regroup4(hs[0].name, [':'], b, "\r\n", a, k');
    }
  }

  lemma Regroup4(a: string, b: string, c: string, d: string, e: string, k: string)
    ensures a + (b + (c + (d + (e + k)))) == (a + (b + (c + (d + e)))) + k
  {
  }

  lemma MessageTextAppends(m: Message, k: string)
    ensures MessageText(m, k) == MessageText(m, "") + k
  {
    assert "\r\n" + "" + k == "\r\n" + k;
    HeadersTextAppends(m.headers, "\r\n" + "", k);
    var lines := HeadersText(m.headers, "\r\n" + "");
    Regroup4(m.path, [' '], m.version, "\r\n", lines, k);
    Regroup3(m.word, [' '], m.path + ([' '] + (m.version + ("\r\n" + lines))), k);
  }

  lemma Pieces(head: string, body: string, more: string)
    ensures var mem := head + (body + more);
      mem[..|head|] == head && mem[|head|..|head| + |body|] == body
  {
  }

  lemma BodyRecovered(mem: string, h: nat, f: Fields, body: string, n: nat)
    requires HeaderEnd(mem, 0) == Some(h) && h + |body| <= n <= |mem| && mem[h..h + |body|] == body
    requires ParseHead(mem[..h], mem[h..]) == f && |body| == f.contentLength <= HTTP_MAX_BODY_SIZE
    ensures Parse(mem, n) == Complete(h + |body|, f, body)
  {
    HeaderEndOfPrefix(mem, n);
    Judged(mem, n, h, f);
    JudgedComplete(mem, n, h, f, body);
  }

  lemma Judged(mem: string, n: nat, h: nat, f: Fields)
    requires h <= n <= |mem| && HeaderEnd(mem[..n], 0) == Some(h) && ParseHead(mem[..h], mem[h..]) == f
    ensures Parse(mem, n) == Judge(f, mem, h, n)
  {
  }

  lemma JudgedComplete(mem: string, n: nat, h: nat, f: Fields, body: string)
    requires h + |body| <= n <= |mem| && mem[h..h + |body|] == body && |body| == f.contentLength <= HTTP_MAX_BODY_SIZE
    ensures Judge(f, mem, h, n) == Complete(h + |body|, f, body)
  {
  }

  lemma HeadFound(m: Message, mem: string, k: string)
    requires MessageOk(m) && mem == MessageText(m, "") + k
    ensures HeaderEnd(mem, 0) == Some(|MessageText(m, "")|)
  {
    MessageTextAppends(m, k);
    MessageEnd(m, k);
  }

  /** Every well-formed request whose body has arrived is recovered: method, path, content
      type, and as many bytes behind the empty line as the last Content-Length says, whatever
      follows them. */
  lemma RequestRecovered(m: Message, head: string, body: string, more: string, n: nat)
    requires MessageOk(m) && head == MessageText(m, "")
    requires |body| == MessageFields(m).contentLength <= HTTP_MAX_BODY_SIZE
    requires |head| + |body| <= n <= |head + (body + more)|
    ensures Parse(head + (body + more), n) == Complete(|head| + |body|, MessageFields(m), body)
  {
    var mem := head + (body + more);
    Pieces(head, body, more);
    HeadFound(m, mem, body + more);
    HeadRead(m, mem[|head|..]);
    BodyRecovered(mem, |head|, MessageFields(m), body, n);
  }

  /** The last Content-Type value, from its first byte that is not a space. */
  function LastType(hs: seq<Header>): Option<string>
    decreases |hs|
  {
    if hs == [] then None
    else
      var later := LastType(hs[1..]);
      if later.None? && hs[0].Other? && LowerAll(hs[0].name) == "content-type" then Some(SkipBlanks(hs[0].value)) else later
  }

  lemma {:induction false} HeadersKeep(f: Fields, hs: seq<Header>)
    requires forall h | h in hs :: HeaderOk(h)
    ensures var g, last := HeadersMeaning(f, hs), LastType(hs);
      && g.httpMethod == f.httpMethod && g.path == f.path
      && g.contentType == if last.None? then f.contentType else if |last.value| <= 127 then last.value else last.value[..127]
    decreases |hs|
  {
    if hs != [] {
      HeadersKeep(HeaderMeaning(f, hs[0]), hs[1..]);
    }
  }

  /** What is recovered of a request: the method among the three known ones, up to 255 bytes of
      the path, and up to 127 bytes of the last content type. */
  lemma FieldsAre(m: Message)
    requires MessageOk(m)
    ensures var f, last := MessageFields(m), LastType(m.headers);
      && (f.httpMethod == GET <==> m.word == "GET") && (f.httpMethod == POST <==> m.word == "POST")
      && (f.httpMethod == OPTIONS <==> m.word == "OPTIONS")
      && f.path == (if |m.path| <= 255 then m.path else m.path[..255])
      && f.contentType == if last.None? then "" else if |last.value| <= 127 then last.value else last.value[..127]
  {
    HeadersKeep(Fields(MethodOf(m.word), Cut(m.path, PATH_CAP), "", 0), m.headers);
  }

  // ---------------------------------------------------------------------------
  // From the network
  // ---------------------------------------------------------------------------

  lemma HeadNotComplete(m: Message, s: string, more: string, mem: string, k: nat)
    requires MessageOk(m) && s == MessageText(m, "") + more && Received(mem, s, k) && k < |MessageText(m, "")|
    requires k <= READ_BUF_SIZE
    ensures Parse(mem, k) == NeedMore
  {
    HeadFound(m, s, more);
    HeaderEndOfPrefix(s, k);
    assert mem[..k] == s[..k];
  }

  lemma BodyNotComplete(m: Message, head: string, rest: string, k: nat)
    requires MessageOk(m) && head == MessageText(m, "") && |head| <= k <= |head + rest|
    requires k - |head| < MessageFields(m).contentLength <= HTTP_MAX_BODY_SIZE
    ensures Parse(head + rest, k) == NeedMore
  {
    var mem := head + rest;
    HeadFound(m, mem, rest);
    HeaderEndOfPrefix(mem, k);
    assert mem[..|head|] == head;
    HeadRead(m, mem[|head|..]);
    Judged(mem, k, |head|, MessageFields(m));
  }

  /** A request before its body is complete. */
  lemma NotYet(m: Message, head: string, body: string, more: string, mem: string, k: nat)
    requires MessageOk(m) && head == MessageText(m, "") && |body| == MessageFields(m).contentLength <= HTTP_MAX_BODY_SIZE
    requires Received(mem, head + (body + more), k) && k < |head| + |body| && |mem| == READ_BUF_SIZE
    requires |head + body| <= READ_BUF_SIZE
    ensures Parse(mem, k) == NeedMore
  {
    var s := head + (body + more);
    if k < |head| {
      HeadNotComplete(m, s, body + more, mem, k);
    } else {
      var rest := mem[|head|..];
      assert mem[..|head|] == mem[..k][..|head|] == s[..k][..|head|] == head;
      assert mem == head + rest;
      BodyNotComplete(m, head, rest, k);
    }
  }

  lemma Arrived(m: Message, head: string, body: string, more: string, mem: string, k: nat)
    requires MessageOk(m) && head == MessageText(m, "") && |body| == MessageFields(m).contentLength <= HTTP_MAX_BODY_SIZE
    requires Received(mem, head + (body + more), k) && k >= |head| + |body|
    ensures Parse(mem, k) == Complete(|head| + |body|, MessageFields(m), body)
  {
    var rest := mem[|head| + |body|..];
    assert mem[..|head| + |body|] == mem[..k][..|head| + |body|] == head + body;
    assert mem == head + (body + rest);
    RequestRecovered(m, head, body, rest, k);
  }

  /** Every well-formed request that fits into the buffer is recovered from the network: however
      its bytes arrive, whatever the buffer held before and whatever follows the body. */
  lemma {:induction false} RequestReceived(m: Message, head: string, body: string, more: string, mem: string, total: nat, cuts: seq<nat>)
    requires MessageOk(m) && head == MessageText(m, "") && |body| == MessageFields(m).contentLength <= HTTP_MAX_BODY_SIZE
    requires |head + body| <= 4096 == |mem|
    requires var s := head + (body + more);
      total < |head| + |body| && Received(mem, s, total) && |cuts| >= |s| - total
    ensures ReadLoop(head + (body + more), mem, total, cuts)
      == Answer(Complete(|head| + |body|, MessageFields(m), body))
    decreases |cuts|
  {
    var s := head + (body + more);
    var mem', total' := TurnTaken(s, mem, total, cuts);
    if total' < |head| + |body| {
      NotYet(m, head, body, more, mem', total');
      RequestReceived(m, head, body, more, mem', total', cuts[1..]);
    } else {
      Arrived(m, head, body, more, mem', total');
    }
  }
}
