/**
 The loops of memory/mem9/embed-service/json.c, proved against the functions of
 JsonScanner and EmbedRequest.  A C pointer into the body is an index into `s`, and
 `end` is |s|; output buffers are written in place.
 */
module JsonReader {
  import opened Ascii
  import opened CStrings
  import opened Wrappers
  import opened JsonGrammar
  import opened JsonScanner
  import opened EmbedRequest

  method SkipWsAt(s: string, p: nat) returns (q: nat)
    requires p <= |s|
    ensures p <= q <= |s| && s[q..] == SkipWs(s[p..])
  {
    q := p;
    while q < |s| && IsWs(s[q])
      invariant p <= q <= |s| && SkipWs(s[q..]) == SkipWs(s[p..])
    {
      assert s[q..][1..] == s[q + 1..];
      q := q + 1;
    }
  }

  method SkipDigitsAt(s: string, p: nat) returns (q: nat)
    requires p <= |s|
    ensures p <= q <= |s| && s[q..] == SkipDigits(s[p..])
  {
    q := p;
    while q < |s| && IsDigit(s[q])
      invariant p <= q <= |s| && SkipDigits(s[q..]) == SkipDigits(s[p..])
    {
      assert s[q..][1..] == s[q + 1..];
      q := q + 1;
    }
  }

  /** The string loop of skip_value: stops at the closing quote, or at or past the end. */
  method SkipStringAt(s: string, p: nat) returns (q: nat)
    requires p <= |s|
    ensures q < |s| ==> p <= q && s[q] == '"' && SkipString(s[p..]) == Some(s[q + 1..])
    ensures q >= |s| ==> SkipString(s[p..]) == None
  {
    q := p;
    while q < |s| && s[q] != '"'
      invariant p <= q <= |s| + 1
      invariant q <= |s| ==> SkipString(s[p..]) == SkipString(s[q..])
      invariant q == |s| + 1 ==> SkipString(s[p..]) == None
      decreases |s| + 1 - q
    {
      var r := s[q..];
      assert r[1..] == s[q + 1..];
      assert |r| >= 2 ==> r[2..] == s[q + 2..];
      if s[q] == '\\' {
        q := q + 1;
      }
      q := q + 1;
    }
    if q < |s| {
      assert s[q..][1..] == s[q + 1..];
    }
  }

  /** The container loop of skip_value. */
  method SkipNestedAt(s: string, p: nat, open: char, close: char) returns (r: Option<nat>)
    requires p <= |s| && Brackets(open, close)
    ensures r.Some? <==> SkipNested(s[p..], 1, open, close).Some?
    ensures r.Some? ==> r.value <= |s| && Some(s[r.value..]) == SkipNested(s[p..], 1, open, close)
  {
    var q, depth := p, 1;
    while q < |s| && depth > 0
      invariant q <= |s| && 0 <= depth
      invariant SkipNested(s[q..], depth, open, close) == SkipNested(s[p..], 1, open, close)
      decreases |s| - q
    {
      var rest := s[q..];
      assert rest[1..] == s[q + 1..];
      if s[q] == open {
        depth := depth + 1;
      } else if s[q] == close {
        depth := depth - 1;
      } else if s[q] == '"' {
        var e := SkipStringAt(s, q + 1);
        if e >= |s| {
          return None;
        }
        q := e;
      }
      q := q + 1;
    }
    return if depth == 0 then Some(q) else None;
  }

  /** memcmp against one of the three literals. */
  method SkipWordAt(s: string, p: nat, word: string) returns (r: Option<nat>)
    requires p <= |s|
    ensures r.Some? <==> SkipWord(s[p..], word).Some?
    ensures r.Some? ==> r.value <= |s| && Some(s[r.value..]) == SkipWord(s[p..], word)
  {
    assert p + |word| <= |s| ==> s[p..][..|word|] == s[p..p + |word|] && s[p..][|word|..] == s[p + |word|..];
    if p + |word| <= |s| && s[p..p + |word|] == word {
      return Some(p + |word|);
    }
    return None;
  }

  method SkipFractionAt(s: string, p: nat) returns (q: nat)
    requires p <= |s|
    ensures q <= |s| && s[q..] == SkipFraction(s[p..])
  {
    q := p;
    if q < |s| && s[q] == '.' {
      assert s[p..][1..] == s[p + 1..];
      q := SkipDigitsAt(s, q + 1);
    }
  }

  method SkipExponentAt(s: string, p: nat) returns (q: nat)
    requires p <= |s|
    ensures q <= |s| && s[q..] == SkipExponent(s[p..])
  {
    q := p;
    if q < |s| && (s[q] == 'e' || s[q] == 'E') {
      assert s[p..][1..] == s[p + 1..];
      assert |s[p..]| > 1 ==> s[p..][2..] == s[p + 2..];
      q := q + 1;
      if q < |s| && (s[q] == '+' || s[q] == '-') {
        q := q + 1;
      }
      q := SkipDigitsAt(s, q);
    }
  }

  method SkipNumberAt(s: string, p: nat) returns (q: nat)
    requires p < |s|
    ensures q <= |s| && s[q..] == SkipNumber(s[p..])
  {
    assert s[p..][1..] == s[p + 1..];
    q := p;
    if s[q] == '-' {
      q := q + 1;
    }
    q := SkipDigitsAt(s, q);
    q := SkipFractionAt(s, q);
    q := SkipExponentAt(s, q);
  }

  method SkipValueAt(s: string, p: nat) returns (r: Option<nat>)
    requires p <= |s|
    ensures r.Some? <==> SkipValue(s[p..]).Some?
    ensures r.Some? ==> r.value <= |s| && Some(s[r.value..]) == SkipValue(s[p..])
  {
    var q := SkipWsAt(s, p);
    if q >= |s| {
      return None;
    }
    assert s[q..][1..] == s[q + 1..];
    match s[q] {
      case '"' =>
        var e := SkipStringAt(s, q + 1);
        return if e >= |s| then None else Some(e + 1);
      case '{' => r := SkipNestedAt(s, q + 1, '{', '}');
      case '[' => r := SkipNestedAt(s, q + 1, '[', ']');
      case 't' => r := SkipWordAt(s, q, "true");
      case 'f' => r := SkipWordAt(s, q, "false");
      case 'n' => r := SkipWordAt(s, q, "null");
      case _ =>
        if s[q] == '-' || IsDigit(s[q]) {
          var e := SkipNumberAt(s, q);
          return Some(e);
        }
        return None;
    }
  }

  // ---------------------------------------------------------------------------
  // parse_string
  // ---------------------------------------------------------------------------

  /** The buffer holds the string, cut to its capacity and NUL-terminated. */
  predicate Holds(buf: seq<char>, cap: nat, content: string)
    requires 0 < cap <= |buf|
  {
    Cut(content, cap) <= buf && buf[|Cut(content, cap)|] == '\0'
  }

  function PrependAll(done: string, r: Option<Parsed>): Option<Parsed> {
    match r
    case None => None
    case Some(p) => Some(Parsed(done + p.content, p.rest))
  }

  lemma PrependNext(done: string, c: char, r: Option<Parsed>)
    ensures PrependAll(done, Prepend(c, r)) == PrependAll(done + [c], r)
  {
    if r.Some? {
      assert done + ([c] + r.value.content) == (done + [c]) + r.value.content;
    }
  }

  /** `buf` is `was` with the part of `done` that fits written over its start. */
  ghost predicate Written(buf: seq<char>, was: seq<char>, done: string, cap: nat) {
    && |buf| == |was|
    && forall k :: 0 <= k < |buf| ==> buf[k] == if k < |done| && k < cap - 1 then done[k] else was[k]
  }

  lemma WriteNext(buf: seq<char>, was: seq<char>, done: string, c: char, cap: nat)
    requires Written(buf, was, done, cap) && cap <= |buf|
    ensures Written(if |done| < cap - 1 then buf[|done| := c] else buf, was, done + [c], cap)
  {
  }

  lemma WriteEnd(buf: seq<char>, was: seq<char>, done: string, cap: nat)
    requires Written(buf, was, done, cap) && 0 < cap <= |buf|
    ensures var last := if |done| < cap then |done| else cap - 1;
      && Holds(buf[last := '\0'], cap, done)
      && buf[last := '\0'][last + 1..] == was[last + 1..]
  {
  }

  /** One character of a string, escapes included; q is not at a quote. */
  method ReadCharAt(s: string, q: nat) returns (next: Option<nat>, c: char)
    requires q < |s| && s[q] != '"'
    ensures next.None? ==> Unescape(s[q..]) == None
    ensures next.Some? ==> q < next.value <= |s| && Unescape(s[q..]) == Prepend(c, Unescape(s[next.value..]))
  {
    ghost var rest := s[q..];
    assert |rest| == |s| - q && rest[0] == s[q] && rest[1..] == s[q + 1..];
    if s[q] != '\\' {
      return Some(q + 1), s[q];
    }
    if q + 1 >= |s| {
      return None, s[q];
    }
    assert rest[1] == s[q + 1] && rest[2..] == s[q + 2..];
    match s[q + 1] {
      case 'b' => c := '\U{0008}';
      case 'f' => c := '\U{000C}';
      case 'n' => c := '\n';
      case 'r' => c := '\r';
      case 't' => c := '\t';
      case 'u' =>
        if q + 5 >= |s| {
          return None, s[q];
        }
        assert rest[6..] == s[q + 6..];
        return Some(q + 6), '?';
      case _ => c := s[q + 1];
    }
    return Some(q + 2), c;
  }

  /** The loop of parse_string, up to the closing quote. */
  method ReadContentAt(s: string, p: nat, out: array?<char>, cap: nat) returns (r: Option<nat>, len: nat, ghost done: string)
    requires p <= |s|
    requires cap > 0 ==> out != null && cap <= out.Length
    modifies if out == null then {} else {out}
    ensures r.None? ==> Unescape(s[p..]) == None
    ensures r.Some? ==>
      && p <= r.value < |s| && len == |done|
      && Unescape(s[p..]) == Some(Parsed(done, s[r.value + 1..]))
    ensures r.Some? && out != null && cap <= out.Length ==> Written(out[..], old(out[..]), done, cap)
  {
    len, done := 0, "";
    ghost var all := Unescape(s[p..]);
    if all.Some? {
      assert "" + all.value.content == all.value.content;
    }
    var q := p;
    while q < |s| && s[q] != '"'
      invariant p <= q <= |s| && len == |done|
      invariant all == PrependAll(done, Unescape(s[q..]))
      invariant out != null ==> Written(out[..], old(out[..]), done, cap)
      decreases |s| - q
    {
      var next, c := ReadCharAt(s, q);
      if next.None? {
        return None, len, done;
      }
      if cap > 0 {
        WriteNext(out[..], old(out[..]), done, c, cap);
        if len < cap - 1 {
          ghost var before := out[..];
          out[len] := c;
          assert out[..] == before[len := c];
        }
      }
      q := next.value;
      PrependNext(done, c, Unescape(s[q..]));
      done := done + [c];
      len := len + 1;
    }
    if q >= |s| {
      return None, len, done;
    }
    assert s[q..][1..] == s[q + 1..];
    assert done + "" == done;
    return Some(q), len, done;
  }

  /** Both passes: with cap == 0 the string is only measured, otherwise it is also
      written, with a NUL behind it and nothing further touched. */
  method ParseStringAt(s: string, p: nat, out: array?<char>, cap: nat) returns (r: Option<nat>, len: nat)
    requires p <= |s|
    requires cap > 0 ==> out != null && cap <= out.Length
    modifies if out == null then {} else {out}
    ensures r.Some? <==> ParseString(s[p..]).Some?
    ensures r.Some? ==>
      && p <= r.value <= |s|
      && ParseString(s[p..]).value.rest == s[r.value..]
      && len == |ParseString(s[p..]).value.content|
    ensures r.Some? && cap > 0 ==>
      var n := |Cut(ParseString(s[p..]).value.content, cap)|;
      && Holds(out[..], cap, ParseString(s[p..]).value.content)
      && out[n + 1..] == old(out[n + 1..])
    ensures r.Some? && cap == 0 && out != null ==> out[..] == old(out[..])
  {
    if p >= |s| || s[p] != '"' {
      return None, 0;
    }
    assert s[p..][1..] == s[p + 1..];
    ghost var done;
    r, len, done := ReadContentAt(s, p + 1, out, cap);
    if r.None? {
      return None, len;
    }
    if out != null && cap > 0 {
      ghost var before := out[..];
      WriteEnd(before, old(out[..]), done, cap);
      var last := if len < cap then len else cap - 1;
      out[last] := '\0';
      assert out[..] == before[last := '\0'];
    }
    return Some(r.value + 1), len;
  }

  // ---------------------------------------------------------------------------
  // json_parse_embed_request
  // ---------------------------------------------------------------------------

  /** embed_request_t */
  class EmbedRequestBuffer {
    const model: array<char>
    var input: array?<char>
    var inputLen: nat
    var encodingFloat: bool

    constructor ()
      ensures fresh(model) && model.Length == MODEL_CAP
    {
      model := new char[MODEL_CAP];
      input := null;
      inputLen := 0;
      encodingFloat := false;
    }

    /** The same as a set, for the contracts below. */
    ghost function Contents(): iset<Request>
      reads this, model, input
    {
      iset r: Request | Is(r)
    }

    /** memset to zero; the encoding defaults to float. */
    method Reset()
      requires model.Length == MODEL_CAP
      modifies this, model
      ensures EmptyRequest in Contents()
    {
      forall i | 0 <= i < model.Length {
        model[i] := '\0';
      }
      input, inputLen, encodingFloat := null, 0, true;
    }

    /** The struct holds the request: the model cut and NUL-terminated, the input with its
        length and a NUL behind it. */
    ghost predicate Is(r: Request)
      reads this, model, input
    {
      && model.Length == MODEL_CAP && |r.model| < MODEL_CAP && r.model == model[..|r.model|] && model[|r.model|] == '\0'
      && (r.input.None? <==> input == null)
      && (r.input.Some? ==>
            && input != null && input != model && inputLen == |r.input.value| && input.Length == inputLen + 1
            && input[..inputLen] == r.input.value && input[inputLen] == '\0')
      && encodingFloat == r.encodingFloat
    }
  }

  /** strcmp(buf, word) == 0 */
  method SameCString(buf: array<char>, word: string, ghost content: string) returns (same: bool)
    requires |word| < buf.Length && '\0' !in word
    requires content <= buf[..] && |content| < buf.Length && buf[|content|] == '\0'
    ensures same <==> CString(content) == word
  {
    var i := 0;
    while i < |word| && buf[i] == word[i]
      invariant 0 <= i <= |word| && i <= |content|
      invariant CString(content) == word <==> CString(content[i..]) == word[i..]
    {
      assert word[i] in word;
      assert content[i..][1..] == content[i + 1..] && word[i..][1..] == word[i + 1..];
      assert i < |content| by { assert buf[i] != '\0'; }
      i := i + 1;
    }
    same := i == |word| && buf[i] == '\0';
  }

  /** A string input: measured first, then written into a buffer of exactly that size. */
  method ReadInputAt(s: string, p: nat, req: EmbedRequestBuffer, ghost v: Request) returns (r: Option<nat>)
    requires p <= |s| && v in req.Contents()
    modifies req
    ensures r.Some? <==> ReadInput(v, s[p..]).Some?
    ensures r.Some? ==>
      && r.value <= |s| && s[r.value..] == ReadInput(v, s[p..]).value.rest
      && ReadInput(v, s[p..]).value.req in req.Contents() && fresh(req.input)
  {
    var after, inputLen := ParseStringAt(s, p, null, 0);
    if after.None? || inputLen > MAX_INPUT_LEN {
      return None;
    }
    var buf := new char[inputLen + 1];
    r, inputLen := ParseStringAt(s, p, buf, inputLen + 1);
    req.input := buf;
    req.inputLen := inputLen;
  }

  /** The loop that skips the rest of an input array. */
  method SkipToCloseAt(s: string, p: nat) returns (r: Option<nat>)
    requires p <= |s|
    ensures r.Some? <==> SkipToClose(s[p..]).Some?
    ensures r.Some? ==> r.value <= |s| && Some(s[r.value..]) == SkipToClose(s[p..])
  {
    var q := p;
    while q < |s| && s[q] != ']'
      invariant q <= |s| && SkipToClose(s[q..]) == SkipToClose(s[p..])
      decreases |s| - q
    {
      assert s[q..][1..] == s[q + 1..];
      if s[q] == '"' {
        var e := SkipValueAt(s, q);
        if e.None? {
          return None;
        }
        q := e.value;
      } else {
        q := q + 1;
      }
    }
    if q < |s| {
      assert s[q..][1..] == s[q + 1..];
      q := q + 1;
    }
    return Some(q);
  }

  method ReadModelAt(s: string, p: nat, req: EmbedRequestBuffer, ghost v: Request) returns (r: Option<nat>)
    requires p < |s| && v in req.Contents()
    modifies req.model
    ensures r.Some? <==> ReadField("model", v, s[p..]).Some?
    ensures r.Some? ==>
      && r.value <= |s| && s[r.value..] == ReadField("model", v, s[p..]).value.rest
      && ReadField("model", v, s[p..]).value.req in req.Contents()
  {
    var len;
    r, len := ParseStringAt(s, p, req.model, req.model.Length);
  }

  method ReadFormatAt(s: string, p: nat, req: EmbedRequestBuffer, ghost v: Request) returns (r: Option<nat>)
    requires p < |s| && v in req.Contents()
    modifies req
    ensures r.Some? <==> ReadField("encoding_format", v, s[p..]).Some?
    ensures r.Some? ==>
      && r.value <= |s| && s[r.value..] == ReadField("encoding_format", v, s[p..]).value.rest
      && ReadField("encoding_format", v, s[p..]).value.req in req.Contents()
    ensures req.input == old(req.input)
  {
    var fmt := new char[FORMAT_CAP];
    var len;
    r, len := ParseStringAt(s, p, fmt, FORMAT_CAP);
    if r.Some? {
      req.encodingFloat := SameCString(fmt, "float", Cut(ParseString(s[p..]).value.content, FORMAT_CAP));
    }
  }

  method ReadInputFieldAt(s: string, p: nat, req: EmbedRequestBuffer, ghost v: Request) returns (r: Option<nat>)
    requires p < |s| && v in req.Contents()
    modifies req
    ensures r.Some? <==> ReadField("input", v, s[p..]).Some?
    ensures r.Some? ==>
      && r.value <= |s| && s[r.value..] == ReadField("input", v, s[p..]).value.rest
      && ReadField("input", v, s[p..]).value.req in req.Contents()
      && (req.input == old(req.input) || fresh(req.input))
  {
    if s[p] == '"' {
      r := ReadInputAt(s, p, req, v);
    } else if s[p] == '[' {
      assert s[p..][1..] == s[p + 1..];
      var q := SkipWsAt(s, p + 1);
      if q >= |s| {
        return None;
      }
      if s[q] == '"' {
        r := ReadInputAt(s, q, req, v);
        if r.None? {
          return None;
        }
        q := r.value;
      }
      r := SkipToCloseAt(s, q);
    } else {
      r := SkipValueAt(s, p);
    }
  }

  method ReadFieldAt(s: string, p: nat, key: array<char>, ghost name: string, req: EmbedRequestBuffer, ghost v: Request)
    returns (r: Option<nat>)
    requires p < |s| && v in req.Contents()
    requires key.Length == KEY_CAP && Holds(key[..], KEY_CAP, name)
    modifies req, req.model
    ensures r.Some? <==> ReadField(CString(Cut(name, KEY_CAP)), v, s[p..]).Some?
    ensures r.Some? ==>
      && r.value <= |s| && s[r.value..] == ReadField(CString(Cut(name, KEY_CAP)), v, s[p..]).value.rest
      && ReadField(CString(Cut(name, KEY_CAP)), v, s[p..]).value.req in req.Contents()
      && (req.input == old(req.input) || fresh(req.input))
  {
    ghost var cut := Cut(name, KEY_CAP);
    var isModel := SameCString(key, "model", cut);
    var isInput := SameCString(key, "input", cut);
    var isFormat := SameCString(key, "encoding_format", cut);
    if isModel {
      r := ReadModelAt(s, p, req, v);
    } else if isInput {
      r := ReadInputFieldAt(s, p, req, v);
    } else if isFormat {
      r := ReadFormatAt(s, p, req, v);
    } else {
      r := SkipValueAt(s, p);
    }
  }

  method ReadKeyAt(s: string, p: nat, key: array<char>) returns (r: Option<nat>)
    requires p < |s| && key.Length == KEY_CAP
    modifies key
    ensures r.Some? <==> ReadKey(s[p..]).Some?
    ensures r.Some? ==>
      && p < r.value < |s| && s[r.value..] == ReadKey(s[p..]).value.rest
      && Holds(key[..], KEY_CAP, ReadKey(s[p..]).value.content)
  {
    var keyLen;
    r, keyLen := ParseStringAt(s, p, key, KEY_CAP);
    if r.None? {
      return None;
    }
    var q := SkipWsAt(s, r.value);
    if q >= |s| || s[q] != ':' {
      return None;
    }
    assert s[q..][1..] == s[q + 1..];
    q := SkipWsAt(s, q + 1);
    return if q >= |s| then None else Some(q);
  }

  method ReadMemberAt(s: string, p: nat, req: EmbedRequestBuffer, ghost v: Request) returns (r: Option<nat>)
    requires p < |s| && v in req.Contents()
    modifies req, req.model
    ensures r.Some? <==> ReadMember(v, s[p..]).Some?
    ensures r.Some? ==>
      && p < r.value <= |s| && s[r.value..] == ReadMember(v, s[p..]).value.rest
      && ReadMember(v, s[p..]).value.req in req.Contents()
      && (req.input == old(req.input) || fresh(req.input))
  {
    var key := new char[KEY_CAP];
    r := ReadKeyAt(s, p, key);
    if r.Some? {
      r := ReadFieldAt(s, r.value, key, ReadKey(s[p..]).value.content, req, v);
    }
  }

  /** One turn of the loop: the index to go on from, the end of the object, or an error. */
  method TurnAt(s: string, p: nat, req: EmbedRequestBuffer, ghost v: Request) returns (next: Option<nat>, stop: bool)
    requires p < |s| && v in req.Contents()
    modifies req, req.model
    ensures stop <==> OneTurn(v, s[p..]).Stop?
    ensures next.Some? <==> OneTurn(v, s[p..]).Next?
    ensures next.Some? ==>
      && p < next.value <= |s| && s[next.value..] == OneTurn(v, s[p..]).p.rest
      && OneTurn(v, s[p..]).p.req in req.Contents()
    ensures stop ==> v in req.Contents() && req.input == old(req.input)
    ensures next.Some? ==> req.input == old(req.input) || fresh(req.input)
  {
    var q := SkipWsAt(s, p);
    if q >= |s| {
      return None, false;
    }
    if s[q] == '}' {
      return None, true;
    }
    if s[q] == ',' {
      assert s[q..][1..] == s[q + 1..];
      return Some(q + 1), false;
    }
    next := ReadMemberAt(s, q, req, v);
    stop := false;
  }

  /** Returns what ParseBody returns, with the request written into the caller's struct. */
  method ParseEmbedRequest(body: string, req: EmbedRequestBuffer) returns (ok: bool)
    requires req.model.Length == MODEL_CAP
    modifies req, req.model
    ensures ok <==> ParseBody(body).Some?
    ensures ok ==> ParseBody(body).value in req.Contents() && fresh(req.input)
  {
    req.Reset();
    ghost var v := EmptyRequest;
    var p := SkipWsAt(body, 0);
    assert body[0..] == body;
    if p >= |body| || body[p] != '{' {
      return false;
    }
    assert body[p..][1..] == body[p + 1..];
    p := p + 1;
    while p < |body|
      invariant p <= |body| && v in req.Contents() && (req.input == null || fresh(req.input))
      invariant ParseBody(body) == ReadMembers(v, body[p..])
      decreases |body| - p
    {
      ghost var turn := OneTurn(v, body[p..]);
      var next, stop := TurnAt(body, p, req, v);
      if stop {
        break;
      }
      if next.None? {
        return false;
      }
      v := turn.p.req;
      p := next.value;
    }
    return req.input != null;
  }
}
