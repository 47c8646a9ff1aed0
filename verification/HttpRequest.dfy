/**
 http_parse_request (memory/mem9/embed-service/http.c) as a function of the read buffer.
 `mem` is the whole buffer and `n` how many of its bytes have been received; what stands
 behind them is stale, and the parser can look at it only through atol.
 */
module HttpRequest {
  import opened Ascii
  import opened CStrings
  import opened Wrappers
  import opened FloatText

  const HTTP_MAX_HEADER_SIZE := 8 * 1024
  const HTTP_MAX_BODY_SIZE := 128 * 1024
  const READ_BUF_SIZE := 4 * 1024
  const PATH_CAP := 256
  const TYPE_CAP := 128
  const LONG_MAX := 0x7fff_ffff_ffff_ffff
  const SIZE_RANGE := 0x1_0000_0000_0000_0000

  datatype Method = GET | POST | OPTIONS | UNKNOWN

  datatype Fields = Fields(httpMethod: Method, path: string, contentType: string, contentLength: nat)

  datatype Verdict = NeedMore | Malformed | Complete(total: nat, fields: Fields, body: string)

  predicate Ends(s: string, i: nat) {
    i + 3 < |s| && s[i] == '\r' && s[i + 1] == '\n' && s[i + 2] == '\r' && s[i + 3] == '\n'
  }

  /** The end of the header block: behind the first empty line. */
  function HeaderEnd(s: string, i: nat): (r: Option<nat>)
    ensures r.Some? ==> i + 4 <= r.value <= |s|
    decreases |s| - i
  {
    if i + 3 >= |s| then None
    else if Ends(s, i) then Some(i + 4)
    else HeaderEnd(s, i + 1)
  }

  lemma {:induction false} HeaderEndIsFirst(s: string, i: nat)
    ensures var r := HeaderEnd(s, i);
      && (r.Some? ==> Ends(s, r.value - 4) && forall j | i <= j < r.value - 4 :: !Ends(s, j))
      && (r.None? ==> forall j | i <= j :: !Ends(s, j))
    decreases |s| - i
  {
    if i + 3 < |s| && !Ends(s, i) {
      HeaderEndIsFirst(s, i + 1);
    }
  }

  /** header_prefix: case-insensitive. */
  predicate HasPrefix(s: string, word: string) {
    |word| <= |s| && forall i | 0 <= i < |word| :: Lower(s[i]) == Lower(word[i])
  }

  function SkipSpaces(s: string): (r: string)
    ensures |r| <= |s|
  {
    if s != "" && IsSpace(s[0]) then SkipSpaces(s[1..]) else s
  }

  function SkipBlanks(s: string): (r: string)
    ensures |r| <= |s|
  {
    if s != "" && s[0] == ' ' then SkipBlanks(s[1..]) else s
  }

  /** White space is skipped up to the first other byte, blanks up to the first byte that is
      not a space. */
  lemma {:induction false} SkipsRun(s: string)
    ensures var n := |s| - |SkipSpaces(s)|;
      SkipSpaces(s) == s[n..] && (forall i | 0 <= i < n :: IsSpace(s[i])) && (n < |s| ==> !IsSpace(s[n]))
    ensures var n := |s| - |SkipBlanks(s)|;
      SkipBlanks(s) == s[n..] && (forall i | 0 <= i < n :: s[i] == ' ') && (n < |s| ==> s[n] != ' ')
  {
    if s != "" && IsSpace(s[0]) {
      SkipsRun(s[1..]);
      assert s == [s[0]] + s[1..];
    }
  }

  function AtolDigits(s: string, acc: nat): nat {
    if s != "" && IsDigit(s[0]) then AtolDigits(s[1..], acc * 10 + Digit(s[0])) else acc
  }

  /** atol, saturating like strtol. */
  function Atol(s: string): (r: int)
    ensures -LONG_MAX - 1 <= r <= LONG_MAX
  {
    var t := SkipSpaces(s);
    if t != "" && t[0] == '-' then
      var v: int := AtolDigits(t[1..], 0); if v > LONG_MAX + 1 then -LONG_MAX - 1 else -v
    else
      var v: int := AtolDigits(if t != "" && t[0] == '+' then t[1..] else t, 0);
      if v > LONG_MAX then LONG_MAX else v
  }

  /** The conversion of a long to size_t. */
  function ToSize(v: int): nat
    requires -LONG_MAX - 1 <= v <= LONG_MAX
  {
    if v < 0 then v + SIZE_RANGE else v
  }

  function IndexOfNewline(s: string): (r: nat)
    ensures r <= |s| && (r < |s| ==> s[r] == '\n') && forall i | 0 <= i < r :: s[i] != '\n'
  {
    if s == "" || s[0] == '\n' then 0 else 1 + IndexOfNewline(s[1..])
  }

  function AfterNewline(s: string): string {
    var q := IndexOfNewline(s);
    if q < |s| then s[q + 1..] else ""
  }

  predicate EndsPath(c: char) {
    c == ' ' || c == '\r' || c == '\n'
  }

  function PathLength(s: string): (r: nat)
    ensures r <= |s|
  {
    if s == "" || EndsPath(s[0]) then 0 else 1 + PathLength(s[1..])
  }

  function AfterMethod(s: string): string {
    if s == "" then "" else if s[0] == ' ' then s[1..] else AfterMethod(s[1..])
  }

  datatype Start = Start(httpMethod: Method, rest: string)

  function StartOf(head: string): Start {
    if "GET " <= head then Start(GET, head[4..])
    else if "POST " <= head then Start(POST, head[5..])
    else if "OPTIONS " <= head then Start(OPTIONS, head[8..])
    else Start(UNKNOWN, AfterMethod(head))
  }

  /** The line without its newline and one trailing carriage return. */
  function LineLength(s: string): (r: nat)
    ensures r <= IndexOfNewline(s)
  {
    var q := IndexOfNewline(s);
    if q > 0 && s[q - 1] == '\r' then q - 1 else q
  }

  /** One header line at the start of `s`; `beyond` is the memory behind the header block. */
  function ReadLine(f: Fields, s: string, beyond: string): Fields {
    if HasPrefix(s, "content-length:") then
      f.(contentLength := ToSize(Atol(ValueFrom(s, 15) + beyond)))
    else if HasPrefix(s, "content-type:") then
      f.(contentType := Cut(TypeOf(s), TYPE_CAP))
    else f
  }

  /** From the first byte of the value that is not a blank of the same line. */
  function ValueFrom(s: string, from: nat): string {
    if from >= LineLength(s) then (if from <= |s| then s[from..] else "")
    else SkipBlanks(s[from..LineLength(s)]) + s[LineLength(s)..]
  }

  function TypeOf(s: string): string {
    if 13 >= LineLength(s) then "" else SkipBlanks(s[13..LineLength(s)])
  }

  function ReadLines(f: Fields, s: string, beyond: string): Fields
    decreases |s|
  {
    if s == "" || s[0] == '\r' || s[0] == '\n' then f
    else ReadLines(ReadLine(f, s, beyond), AfterNewline(s), beyond)
  }

  /** Method and path. */
  function RequestLine(head: string): Fields {
    var start := StartOf(head);
    Fields(start.httpMethod, Cut(start.rest[..PathLength(start.rest)], PATH_CAP), "", 0)
  }

  /** The header lines: what follows the first newline behind the path. */
  function LinesOf(head: string): string {
    var rest := StartOf(head).rest;
    AfterNewline(rest[PathLength(rest)..])
  }

  function ParseHead(head: string, beyond: string): Fields {
    ReadLines(RequestLine(head), LinesOf(head), beyond)
  }

  function Judge(fields: Fields, mem: string, h: nat, n: nat): Verdict
    requires h <= n <= |mem|
  {
    if fields.contentLength > HTTP_MAX_BODY_SIZE then Malformed
    else if n - h < fields.contentLength then NeedMore
    else Complete(h + fields.contentLength, fields, mem[h..h + fields.contentLength])
  }

  function Parse(mem: string, n: nat): Verdict
    requires n <= |mem|
  {
    match HeaderEnd(mem[..n], 0)
    case None => if n > HTTP_MAX_HEADER_SIZE then Malformed else NeedMore
    case Some(h) => Judge(ParseHead(mem[..h], mem[h..]), mem, h, n)
  }

  /** Without an empty line more is needed, up to 8 KB. */
  lemma WithoutEmptyLine(mem: string, n: nat)
    requires n <= |mem| && forall i | 0 <= i < n :: !Ends(mem[..n], i)
    ensures Parse(mem, n) == if n > 8192 then Malformed else NeedMore
  {
    HeaderEndIsFirst(mem[..n], 0);
  }
}
