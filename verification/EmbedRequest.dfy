/**
 json_parse_embed_request (memory/mem9/embed-service/json.c): what the embeddings request
 parser recovers from a request body.
 */
module EmbedRequest {
  import opened Ascii
  import opened CStrings
  import opened Wrappers
  import opened JsonGrammar
  import opened JsonScanner

  const MAX_INPUT_LEN := 64 * 1024
  const MODEL_CAP := 128
  const KEY_CAP := 64
  const FORMAT_CAP := 32

  datatype Request = Request(model: string, input: Option<string>, encodingFloat: bool)

  const EmptyRequest := Request("", None, true)

  // ---------------------------------------------------------------------------
  // The parser as a function on the remaining text
  // ---------------------------------------------------------------------------

  datatype Progress = Progress(req: Request, rest: string)

  /** The loop that skips the rest of an input array. */
  function SkipToClose(s: string): (r: Option<string>)
    ensures r.Some? ==> |r.value| <= |s|
    decreases |s|
  {
    if s == "" then Some("")
    else if s[0] == ']' then Some(s[1..])
    else if s[0] == '"' then
      match SkipString(s[1..])
      case None => None
      case Some(t) => SkipToClose(t)
    else SkipToClose(s[1..])
  }

  function ReadInput(req: Request, s: string): (r: Option<Progress>)
    ensures r.Some? ==> |r.value.rest| <= |s|
  {
    match ParseString(s)
    case None => None
    case Some(p) =>
      if |p.content| > MAX_INPUT_LEN then None
      else Some(Progress(req.(input := Some(p.content)), p.rest))
  }

  function CloseArray(p: Progress): (r: Option<Progress>)
    ensures r.Some? ==> |r.value.rest| <= |p.rest|
  {
    match SkipToClose(p.rest)
    case None => None
    case Some(t) => Some(Progress(p.req, t))
  }

  function SkipField(req: Request, s: string): (r: Option<Progress>)
    ensures r.Some? ==> |r.value.rest| <= |s|
  {
    match SkipValue(s)
    case None => None
    case Some(t) => Some(Progress(req, t))
  }

  function ReadField(key: string, req: Request, s: string): (r: Option<Progress>)
    requires s != ""
    ensures r.Some? ==> |r.value.rest| <= |s|
  {
    if key == "model" then
      match ParseString(s)
      case None => None
      case Some(p) => Some(Progress(req.(model := Cut(p.content, MODEL_CAP)), p.rest))
    else if key == "input" then
      if s[0] == '"' then ReadInput(req, s)
      else if s[0] == '[' then
        var t := SkipWs(s[1..]);
        if t == "" then None
        else if t[0] == '"' then
          match ReadInput(req, t)
          case None => None
          case Some(p) => CloseArray(p)
        else CloseArray(Progress(req, t))
      else SkipField(req, s)
    else if key == "encoding_format" then
      match ParseString(s)
      case None => None
      case Some(p) =>
        Some(Progress(req.(encodingFloat := CString(Cut(p.content, FORMAT_CAP)) == "float"), p.rest))
    else SkipField(req, s)
  }

  function Finish(req: Request): Option<Request> {
    if req.input.Some? then Some(req) else None
  }

  /** Key and colon of one member; what is left starts with the value. */
  function ReadKey(s: string): (r: Option<Parsed>)
    ensures r.Some? ==> r.value.rest != "" && |r.value.rest| < |s|
  {
    match ParseString(s)
    case None => None
    case Some(key) =>
      var colon := SkipWs(key.rest);
      if colon == "" || colon[0] != ':' then None
      else
        var value := SkipWs(colon[1..]);
        if value == "" then None else Some(Parsed(key.content, value))
  }

  function ReadMember(req: Request, s: string): (r: Option<Progress>)
    ensures r.Some? ==> |r.value.rest| < |s|
  {
    match ReadKey(s)
    case None => None
    case Some(key) => ReadField(CString(Cut(key.content, KEY_CAP)), req, key.rest)
  }

  datatype Turn = Reject | Stop | Next(p: Progress)

  /** One turn of the loop over the members. */
  function OneTurn(req: Request, s: string): (r: Turn)
    ensures r.Next? ==> |r.p.rest| < |s|
  {
    var t := SkipWs(s);
    if t == "" then Reject
    else if t[0] == '}' then Stop
    else if t[0] == ',' then Next(Progress(req, t[1..]))
    else
      match ReadMember(req, t)
      case None => Reject
      case Some(p) => Next(p)
  }

  /** The loop over the members, from inside the braces. */
  function ReadMembers(req: Request, s: string): Option<Request>
    decreases |s|
  {
    if s == "" then Finish(req)
    else
      match OneTurn(req, s)
      case Reject => None
      case Stop => Finish(req)
      case Next(p) => ReadMembers(p.req, p.rest)
  }

  function ParseBody(body: string): Option<Request> {
    var s := SkipWs(body);
    if s == "" || s[0] != '{' then None else ReadMembers(EmptyRequest, s[1..])
  }

  // ---------------------------------------------------------------------------
  // What a request means, on its syntax tree
  // ---------------------------------------------------------------------------

  /** One member's effect; None when the request is rejected. */
  function FieldMeaning(key: string, v: Value, req: Request): Option<Request> {
    if key == "model" then
      if v.Str? then Some(req.(model := Cut(Content(v.items), MODEL_CAP))) else None
    else if key == "encoding_format" then
      if v.Str? then Some(req.(encodingFloat := Content(v.items) == "float")) else None
    else if key == "input" && v.Str? then InputMeaning(v, req)
    else if key == "input" && v.Arr? && v.elems.Elem? && v.elems.v.Str? then InputMeaning(v.elems.v, req)
    else Some(req)
  }

  function InputMeaning(v: Value, req: Request): Option<Request>
    requires v.Str?
  {
    if |Content(v.items)| > MAX_INPUT_LEN then None else Some(req.(input := Some(Content(v.items))))
  }

  /** The members in order, later ones overriding earlier ones. */
  function Meaning(ms: Members, req: Request): Option<Request> {
    match ms
    case NoMembers => Finish(req)
    case Member(_, key, _, _, v, _, tail) =>
      match FieldMeaning(Content(key), v, req)
      case None => None
      case Some(r) => Meaning(tail, r)
  }

  /** The text a value gives as the input: a string, or the first element of an array if that
      is a string. */
  function InputText(v: Value): Option<string> {
    if v.Str? then Some(Content(v.items))
    else if v.Arr? && v.elems.Elem? && v.elems.v.Str? then Some(Content(v.elems.v.items))
    else None
  }

  function TextField(v: Value): Option<string> {
    if v.Str? then Some(Content(v.items)) else None
  }

  /** Of all members with this key that give a text, the last one's. */
  function LastText(ms: Members, key: string, text: Value -> Option<string>): Option<string> {
    match ms
    case NoMembers => None
    case Member(_, k, _, _, v, _, tail) =>
      var later := LastText(tail, key, text);
      if later.Some? || Content(k) != key then later else text(v)
  }

  /** Model and encoding format are strings, and no input is longer than 64 KB. */
  predicate NoneRefused(ms: Members) {
    match ms
    case NoMembers => true
    case Member(_, k, _, _, v, _, tail) =>
      && (Content(k) in {"model", "encoding_format"} ==> v.Str?)
      && (Content(k) == "input" && InputText(v).Some? ==> |InputText(v).value| <= 65536)
      && NoneRefused(tail)
  }

  /** What a request means, without any order of reading: the last input, which must be
      there, the first 127 bytes of the last model, and float unless the last format says
      otherwise. */
  lemma {:induction false} MeaningIs(ms: Members, req: Request)
    ensures var input := LastText(ms, "input", InputText);
      Meaning(ms, req).Some? <==> NoneRefused(ms) && (input.Some? || req.input.Some?)
    ensures Meaning(ms, req).Some? ==>
      var r := Meaning(ms, req).value;
      var input := LastText(ms, "input", InputText);
      var model := LastText(ms, "model", TextField);
      var format := LastText(ms, "encoding_format", TextField);
      && r.input == (if input.Some? then input else req.input)
      && r.model == (if model.None? then req.model else if |model.value| <= 127 then model.value else model.value[..127])
      && r.encodingFloat == (if format.None? then req.encodingFloat else format.value == "float")
    decreases ms
  {
    if ms.Member? {
      var next := FieldMeaning(Content(ms.key), ms.v, req);
      if next.Some? {
        MeaningIs(ms.tail, next.value);
      }
    }
  }

  /** The input loop counts no brackets, so it stops where the first array inside the input
      array closes: nowhere, directly in an array, or as a member's value in an object, with
      the members behind it. */
  datatype Closing = Flat | InArray | InObject(tail: Members)

  function ValueClosing(v: Value): (c: Closing)
    ensures c.InObject? ==> (v decreases to c.tail)
  {
    match v
    case Arr(_, elems) => ElemsClosing(elems)
    case Obj(_, members) => MembersClosing(members)
    case _ => Flat
  }

  function ElemsClosing(es: Elems): (c: Closing)
    ensures c.InObject? ==> (es decreases to c.tail)
  {
    match es
    case NoElems => Flat
    case Elem(_, v, _, tail) =>
      if !ValueClosing(v).Flat? then ValueClosing(v) else if v.Arr? then InArray else ElemsClosing(tail)
  }

  function MembersClosing(ms: Members): (c: Closing)
    ensures c.InObject? ==> (ms decreases to c.tail)
  {
    match ms
    case NoMembers => Flat
    case Member(_, _, _, _, v, _, tail) =>
      if !ValueClosing(v).Flat? then ValueClosing(v) else if v.Arr? then InObject(tail) else MembersClosing(tail)
  }

  /** No array anywhere inside, neither as an element nor within an object. */
  predicate NoArrays(v: Value) {
    match v
    case Arr(_, _) => false
    case Obj(_, members) => NoArraysInMembers(members)
    case _ => true
  }

  predicate NoArraysInMembers(ms: Members) {
    match ms
    case NoMembers => true
    case Member(_, _, _, _, v, _, tail) => NoArrays(v) && NoArraysInMembers(tail)
  }

  predicate NoArraysInElems(es: Elems) {
    match es
    case NoElems => true
    case Elem(_, v, _, tail) => NoArrays(v) && NoArraysInElems(tail)
  }

  /** Every "input" array is flat. */
  predicate FlatInputs(ms: Members) {
    match ms
    case NoMembers => true
    case Member(_, key, _, _, v, _, tail) =>
      && (Content(key) == "input" && v.Arr? ==> NoArraysInElems(v.elems))
      && FlatInputs(tail)
  }

  /** What the parser makes of the members, nested input arrays included: it gives up when
      the first array to close sits in an array, and goes on with the members of the inner
      object when it sits there. */
  function ReadAs(ms: Members, req: Request): Option<Request>
    decreases ms
  {
    match ms
    case NoMembers => Finish(req)
    case Member(_, key, _, _, v, _, tail) =>
      match FieldMeaning(Content(key), v, req)
      case None => None
      case Some(r) =>
        if Content(key) == "input" && v.Arr? then
          match ElemsClosing(v.elems)
          case Flat => ReadAs(tail, r)
          case InArray => None
          case InObject(inner) => ReadAs(inner, r)
        else ReadAs(tail, r)
  }

  // ---------------------------------------------------------------------------
  // Proof that the parser computes the meaning
  // ---------------------------------------------------------------------------

  lemma {:induction false} ContentHasNoNul(items: seq<StrItem>)
    requires ItemsOk(items)
    ensures '\0' !in Content(items)
  {
    if items != [] {
      assert ItemOk(items[0]);
      ContentHasNoNul(items[1..]);
    }
  }

  lemma {:induction false} CStringOf(s: string)
    requires '\0' !in s
    ensures CString(s) == s
  {
    if s != "" {
      assert s[0] in s;
      CStringOf(s[1..]);
    }
  }

  /** Comparing a cut and NUL-terminated buffer with a short word compares the contents. */
  lemma BufferCompares(items: seq<StrItem>, cap: nat, word: string)
    requires ItemsOk(items) && |word| + 1 < cap
    ensures CString(Cut(Content(items), cap)) == word <==> Content(items) == word
  {
    ContentHasNoNul(items);
    CStringOf(Cut(Content(items), cap));
  }

  lemma {:induction false} PlainToClose(t: string, k: string)
    requires forall c | c in t :: c != ']' && c != '"'
    ensures SkipToClose(t + k) == SkipToClose(k)
  {
    if t != "" {
      assert t[0] in t;
      assert forall c | c in t[1..] :: c in t;
      assert (t + k)[1..] == t[1..] + k;
      PlainToClose(t[1..], k);
    } else {
      assert t + k == k;
    }
  }

  lemma StringToClose(items: seq<StrItem>, k: string)
    requires ItemsOk(items)
    ensures SkipToClose(StringText(items, k)) == SkipToClose(k)
  {
    StringSkipped(items, k);
    assert StringText(items, k)[1..] == ItemsText(items, ['"'] + k);
  }

  lemma ScalarToClose(v: Value, k: string)
    requires ValueOk(v) && (v.True? || v.False? || v.Null? || v.Num?)
    ensures SkipToClose(ValueText(v, k)) == SkipToClose(k)
  {
    ValueTextAppends(v, k);
    if v.Num? {
      NumberHasNumberChars(v.number);
      NumberCharsToClose(NumberText(v.number, ""), k);
    } else {
      var word := if v.True? then "true" else if v.False? then "false" else "null";
      PlainToClose(word, k);
    }
  }

  lemma NumberCharsToClose(t: string, k: string)
    requires NumberChars(t)
    ensures SkipToClose(t + k) == SkipToClose(k)
  {
    PlainToClose(t, k);
  }

  /** The elements behind one, with their comma. */
  function ElemRest(tail: Elems, k: string): string {
    if tail.NoElems? then k else [','] + ElemsText(tail, k)
  }

  function MemberRest(tail: Members, k: string): string {
    if tail.NoMembers? then k else [','] + MembersText(tail, k)
  }

  /** What is left where the first inner array has closed. */
  ghost predicate LeftOver(c: Closing, left: string) {
    match c
    case Flat => false
    case InArray =>
      exists ws, tail, k :: AllWs(ws) && ElemsOk(tail) && left == ws + ElemRest(tail, [']'] + k)
    case InObject(tail) =>
      exists ws, k :: AllWs(ws) && MembersOk(tail) && left == ws + MemberRest(tail, ['}'] + k)
  }

  /** The scan goes past `length` bytes from the end only, and stops in the inner array. */
  ghost predicate StopsEarly(c: Closing, length: nat, r: Option<string>) {
    r.Some? && |r.value| > length && LeftOver(c, r.value)
  }

  lemma RestLengths(es: Elems, ms: Members, k: string)
    ensures |ElemRest(es, k)| >= |k| && |MemberRest(ms, k)| >= |k|
  {
    ElemsTextAppends(es, k);
    MembersTextAppends(ms, k);
  }

  lemma {:induction false} ValueToClose(v: Value, k: string)
    requires ValueOk(v)
    ensures var c, r := ValueClosing(v), SkipToClose(ValueText(v, k));
      if !c.Flat? then StopsEarly(c, |k|, r) else r == if v.Arr? then Some(k) else SkipToClose(k)
    decreases v
  {
    match v
    case True | False | Null | Num(_) => ScalarToClose(v, k);
    case Str(items) => StringToClose(items, k);
    case Arr(pad, elems) =>
      var body := ElemsText(elems, [']'] + k);
      assert ValueText(v, k)[1..] == pad + body;
      PlainToClose(pad, body);
      ElemsToClose(elems, k);
    case Obj(pad, members) =>
      var body := MembersText(members, ['}'] + k);
      assert ValueText(v, k)[1..] == pad + body;
      PlainToClose(pad, body);
      MembersToClose(members, k);
  }

  lemma {:induction false} ElemsToClose(es: Elems, k: string)
    requires ElemsOk(es)
    ensures var c, r := ElemsClosing(es), SkipToClose(ElemsText(es, [']'] + k));
      if !c.Flat? then StopsEarly(c, |k|, r) else r == Some(k)
    decreases es
  {
    var close := [']'] + k;
    match es
    case NoElems => assert close[1..] == k;
    case Elem(before, v, after, tail) =>
      var rest := ElemRest(tail, close);
      RestLengths(tail, NoMembers, close);
      PlainToClose(before, ValueText(v, after + rest));
      ValueToClose(v, after + rest);
      PlainToClose(after, rest);
      ElemsToClose(tail, k);
      if tail.Elem? {
        assert rest[1..] == ElemsText(tail, close);
      }
  }

  lemma {:induction false} MembersToClose(ms: Members, k: string)
    requires MembersOk(ms)
    ensures var c, r := MembersClosing(ms), SkipToClose(MembersText(ms, ['}'] + k));
      if !c.Flat? then StopsEarly(c, |k|, r) else r == SkipToClose(k)
    decreases ms
  {
    var close := ['}'] + k;
    match ms
    case NoMembers => assert close[1..] == k;
    case Member(before, key, beforeColon, afterColon, v, after, tail) =>
      var rest := MemberRest(tail, close);
      var value := ValueText(v, after + rest);
      RestLengths(NoElems, tail, close);
      KeyToClose(before, key, beforeColon, afterColon, value);
      ValueToClose(v, after + rest);
      PlainToClose(after, rest);
      MembersToClose(tail, k);
      if tail.Member? {
        assert rest[1..] == MembersText(tail, close);
      }
  }

  lemma KeyToClose(before: string, key: seq<StrItem>, beforeColon: string, afterColon: string, value: string)
    requires AllWs(before) && ItemsOk(key) && AllWs(beforeColon) && AllWs(afterColon)
    ensures SkipToClose(before + StringText(key, beforeColon + ([':'] + (afterColon + value)))) == SkipToClose(value)
  {
    var colon := [':'] + (afterColon + value);
    PlainToClose(before, StringText(key, beforeColon + colon));
    StringToClose(key, beforeColon + colon);
    PlainToClose(beforeColon, colon);
    assert colon[1..] == afterColon + value;
    PlainToClose(afterColon, value);
  }

  lemma {:induction false} FlatValue(v: Value)
    ensures NoArrays(v) <==> !v.Arr? && ValueClosing(v).Flat?
    decreases v
  {
    match v
    case Obj(_, members) => FlatMembers(members);
    case _ =>
  }

  lemma {:induction false} FlatMembers(ms: Members)
    ensures NoArraysInMembers(ms) <==> MembersClosing(ms).Flat?
    decreases ms
  {
    if ms.Member? {
      FlatValue(ms.v);
      FlatMembers(ms.tail);
    }
  }

  lemma {:induction false} FlatElems(es: Elems)
    ensures NoArraysInElems(es) <==> ElemsClosing(es).Flat?
    decreases es
  {
    if es.Elem? {
      FlatValue(es.v);
      FlatElems(es.tail);
    }
  }

  /** The loop over the rest of an input array ends behind the array if and only if no array
      is nested in it, at any depth. */
  lemma SkipToCloseExactIff(es: Elems, k: string)
    requires ElemsOk(es)
    ensures SkipToClose(ElemsText(es, [']'] + k)) == Some(k) <==> NoArraysInElems(es)
  {
    ElemsToClose(es, k);
    FlatElems(es);
  }

  /** An input array: its first element if that is a string, and then up to the first
      bracket that closes. */
  lemma InputArrayRead(req: Request, v: Value, k: string)
    requires ValueOk(v) && v.Arr?
    ensures var p, m, c := ReadField("input", req, ValueText(v, k)), FieldMeaning("input", v, req), ElemsClosing(v.elems);
      && (m.None? ==> p.None?)
      && (m.Some? ==> p.Some? && p.value.req == m.value)
      && (m.Some? && c.Flat? ==> p.value.rest == k)
      && (m.Some? && !c.Flat? ==> |p.value.rest| > |k| && LeftOver(c, p.value.rest))
  {
    var close := [']'] + k;
    var es := v.elems;
    assert ValueText(v, k)[1..] == v.pad + ElemsText(es, close);
    WsSkipped(v.pad, ElemsText(es, close));
    ElemsToClose(es, k);
    if es.Elem? {
      var rest := ElemRest(es.tail, close);
      var first := ValueText(es.v, es.after + rest);
      WsSkipped(es.before, first);
      FirstCharOfValue(es.v, es.after + rest);
      PlainToClose(es.before, first);
      if es.v.Str? {
        ParsesStringText(es.v.items, es.after + rest);
        StringToClose(es.v.items, es.after + rest);
      }
    }
  }

  /** The input field is read as its meaning, up to its end, if and only if the array is
      flat. */
  lemma InputFieldExactIff(req: Request, v: Value, k: string)
    requires ValueOk(v) && v.Arr? && FieldMeaning("input", v, req).Some?
    ensures ReadField("input", req, ValueText(v, k)) == Some(Progress(FieldMeaning("input", v, req).value, k))
       <==> NoArraysInElems(v.elems)
  {
    InputArrayRead(req, v, k);
    FlatElems(v.elems);
  }

  lemma FirstCharOfValue(v: Value, k: string)
    requires ValueOk(v)
    ensures ValueText(v, k) != "" && !IsWs(ValueText(v, k)[0])
    ensures v.Str? <==> ValueText(v, k)[0] == '"'
    ensures v.Arr? <==> ValueText(v, k)[0] == '['
    ensures SkipWs(ValueText(v, k)) == ValueText(v, k)
  {
    if v.Num? {
      var n := v.number;
      assert ValueText(v, k)[0] == if n.minus then '-' else n.whole[0];
      assert IsDigit(n.whole[0]);
    }
  }

  /** One member's value is read as its meaning, up to its end. */
  lemma FieldRead(key: seq<StrItem>, req: Request, v: Value, k: string)
    requires ItemsOk(key) && ValueOk(v) && (v.Num? ==> EndsNumber(k))
    requires Content(key) == "input" && v.Arr? ==> ElemsClosing(v.elems).Flat?
    ensures ValueText(v, k) != ""
    ensures ReadField(CString(Cut(Content(key), KEY_CAP)), req, ValueText(v, k))
         == match FieldMeaning(Content(key), v, req) case None => None case Some(r) => Some(Progress(r, k))
  {
    BufferCompares(key, KEY_CAP, "model");
    BufferCompares(key, KEY_CAP, "input");
    BufferCompares(key, KEY_CAP, "encoding_format");
    FirstCharOfValue(v, k);
    SkipsValueText(v, k);
    if v.Str? {
      ParsesStringText(v.items, k);
      BufferCompares(v.items, FORMAT_CAP, "float");
    } else if v.Arr? && Content(key) == "input" {
      InputArrayRead(req, v, k);
    }
  }

  /** White space in front of the rest of the members changes nothing. */
  lemma LeadingWs(req: Request, ws: string, k: string)
    requires AllWs(ws) && k != ""
    ensures ReadMembers(req, ws + k) == ReadMembers(req, k)
  {
    WsSkipped(ws, k);
  }

  /** The text after a value cannot extend a number. */
  lemma DelimiterEndsNumber(after: string, rest: string)
    requires AllWs(after) && rest != "" && rest[0] in ",}"
    ensures EndsNumber(after + rest)
  {
    if after != "" {
      assert after[0] in after;
    } else {
      assert after + rest == rest;
    }
  }

  lemma MemberRead(before: string, key: seq<StrItem>, beforeColon: string, afterColon: string,
                   value: string, req: Request)
    requires AllWs(before) && ItemsOk(key) && AllWs(beforeColon) && AllWs(afterColon)
    requires value != "" && SkipWs(value) == value
    ensures ReadMembers(req, before + StringText(key, beforeColon + ([':'] + (afterColon + value))))
         == match ReadField(CString(Cut(Content(key), KEY_CAP)), req, value)
            case None => None
            case Some(p) => ReadMembers(p.req, p.rest)
  {
    var colon := [':'] + (afterColon + value);
    LeadingWs(req, before, StringText(key, beforeColon + colon));
    ParsesStringText(key, beforeColon + colon);
    WsSkipped(beforeColon, colon);
    assert SkipWs(colon) == colon && colon[1..] == afterColon + value;
    WsSkipped(afterColon, value);
  }

  lemma FieldConsumed(before: string, key: seq<StrItem>, beforeColon: string, afterColon: string,
                      v: Value, after: string, rest: string, req: Request)
    requires AllWs(before) && ItemsOk(key) && AllWs(beforeColon) && AllWs(afterColon) && ValueOk(v) && AllWs(after)
    requires Content(key) == "input" && v.Arr? ==> ElemsClosing(v.elems).Flat?
    requires rest != "" && rest[0] in ",}"
    ensures ReadMembers(req, FieldText(before, key, beforeColon, afterColon, v, after, rest))
         == match FieldMeaning(Content(key), v, req) case None => None case Some(r) => ReadMembers(r, rest)
  {
    FirstCharOfValue(v, after + rest);
    MemberRead(before, key, beforeColon, afterColon, ValueText(v, after + rest), req);
    DelimiterEndsNumber(after, rest);
    FieldRead(key, req, v, after + rest);
    var next := FieldMeaning(Content(key), v, req);
    if next.Some? {
      LeadingWs(next.value, after, rest);
    }
  }

  /** A member whose input array is not flat: what follows is read where the first inner
      array closed. */
  lemma NestedConsumed(before: string, key: seq<StrItem>, beforeColon: string, afterColon: string,
                       v: Value, after: string, rest: string, req: Request) returns (left: string)
    requires AllWs(before) && ItemsOk(key) && AllWs(beforeColon) && AllWs(afterColon) && ValueOk(v)
    requires Content(key) == "input" && v.Arr? && !ElemsClosing(v.elems).Flat?
    ensures LeftOver(ElemsClosing(v.elems), left)
    ensures ReadMembers(req, FieldText(before, key, beforeColon, afterColon, v, after, rest))
         == match FieldMeaning("input", v, req) case None => None case Some(r) => ReadMembers(r, left)
  {
    var value := ValueText(v, after + rest);
    BufferCompares(key, KEY_CAP, "input");
    FirstCharOfValue(v, after + rest);
    MemberRead(before, key, beforeColon, afterColon, value, req);
    InputArrayRead(req, v, after + rest);
    ElemsToClose(v.elems, after + rest);
    left := if FieldMeaning("input", v, req).Some? then ReadField("input", req, value).value.rest
            else SkipToClose(ElemsText(v.elems, [']'] + (after + rest))).value;
  }

  /** Behind an array that closed inside an array no member can be read. */
  lemma InArrayRejected(req: Request, left: string)
    requires LeftOver(InArray, left)
    ensures ReadMembers(req, left) == None
  {
    var ws, tail, k :| AllWs(ws) && ElemsOk(tail) && left == ws + ElemRest(tail, [']'] + k);
    var close := [']'] + k;
    LeadingWs(req, ws, ElemRest(tail, close));
    if tail.Elem? {
      assert ElemRest(tail, close)[1..] == ElemsText(tail, close);
      ElementIsNoMember(req, tail, close);
    }
  }

  /** An element is followed by a comma or a bracket, not by a colon. */
  lemma ElementIsNoMember(req: Request, es: Elems, close: string)
    requires ElemsOk(es) && es.Elem? && close != "" && close[0] == ']'
    ensures ReadMembers(req, ElemsText(es, close)) == None
  {
    var rest := ElemRest(es.tail, close);
    var first := ValueText(es.v, es.after + rest);
    FirstCharOfValue(es.v, es.after + rest);
    FirstCharIsNoBrace(es.v, es.after + rest);
    LeadingWs(req, es.before, first);
    if es.v.Str? {
      ParsesStringText(es.v.items, es.after + rest);
      WsSkipped(es.after, rest);
      assert SkipWs(rest) == rest;
    }
  }

  lemma FirstCharIsNoBrace(v: Value, k: string)
    requires ValueOk(v)
    ensures ValueText(v, k) != "" && ValueText(v, k)[0] !in "},"
  {
    if v.Num? {
      var n := v.number;
      assert ValueText(v, k)[0] == if n.minus then '-' else n.whole[0];
      assert IsDigit(n.whole[0]);
    }
  }

  /** The loop over the members computes ReadAs, whatever the input arrays hold. */
  lemma {:induction false} MembersRead(ms: Members, req: Request, k: string)
    requires MembersOk(ms)
    ensures ReadMembers(req, MembersText(ms, ['}'] + k)) == ReadAs(ms, req)
    decreases ms, 0
  {
    var close := ['}'] + k;
    match ms
    case NoMembers =>
    case Member(before, key, beforeColon, afterColon, v, after, tail) =>
      var rest := MemberRest(tail, close);
      var next := FieldMeaning(Content(key), v, req);
      if Content(key) == "input" && v.Arr? && !ElemsClosing(v.elems).Flat? {
        var left := NestedConsumed(before, key, beforeColon, afterColon, v, after, rest, req);
        match ElemsClosing(v.elems) {
          case InArray => if next.Some? { InArrayRejected(next.value, left); }
          case InObject(inner) => if next.Some? { InnerRead(inner, next.value, left); }
        }
      } else {
        FieldConsumed(before, key, beforeColon, afterColon, v, after, rest, req);
        if next.Some? {
          TailRead(tail, next.value, k);
        }
      }
  }

  lemma {:induction false} InnerRead(inner: Members, req: Request, left: string)
    requires LeftOver(InObject(inner), left)
    ensures ReadMembers(req, left) == ReadAs(inner, req)
    decreases inner, 2
  {
    var ws, k :| AllWs(ws) && MembersOk(inner) && left == ws + MemberRest(inner, ['}'] + k);
    LeadingWs(req, ws, MemberRest(inner, ['}'] + k));
    TailRead(inner, req, k);
  }

  lemma {:induction false} TailRead(tail: Members, req: Request, k: string)
    requires MembersOk(tail)
    ensures ReadMembers(req, MemberRest(tail, ['}'] + k)) == ReadAs(tail, req)
    decreases tail, 1
  {
    var rest := MemberRest(tail, ['}'] + k);
    assert SkipWs(rest) == rest;
    if tail.Member? {
      assert rest[1..] == MembersText(tail, ['}'] + k);
      MembersRead(tail, req, k);
    }
  }

  /** For every well-formed request object - fields in any order, unknown fields of any
      nesting, input arrays of any nesting, any whitespace - what the parser returns;
      whatever follows the object is ignored. */
  lemma RequestReadAs(ws: string, pad: string, ms: Members, trailing: string)
    requires AllWs(ws) && ValueOk(Obj(pad, ms))
    ensures ParseBody(ws + (ValueText(Obj(pad, ms), "") + trailing)) == ReadAs(ms, EmptyRequest)
  {
    var v := Obj(pad, ms);
    ValueTextAppends(v, trailing);
    var t := ValueText(v, trailing);
    WsSkipped(ws, t);
    assert t[1..] == pad + MembersText(ms, ['}'] + trailing);
    MembersTextAppends(ms, ['}'] + trailing);
    LeadingWs(EmptyRequest, pad, MembersText(ms, ['}'] + trailing));
    MembersRead(ms, EmptyRequest, trailing);
  }

  lemma {:induction false} FlatReadAs(ms: Members, req: Request)
    requires FlatInputs(ms)
    ensures ReadAs(ms, req) == Meaning(ms, req)
    decreases ms
  {
    if ms.Member? {
      if ms.v.Arr? {
        FlatElems(ms.v.elems);
      }
      var next := FieldMeaning(Content(ms.key), ms.v, req);
      if next.Some? {
        FlatReadAs(ms.tail, next.value);
      }
    }
  }

  /** For every well-formed request object whose input arrays are flat the parser returns
      exactly what the object means. */
  lemma RequestRecovered(ws: string, pad: string, ms: Members, trailing: string)
    requires AllWs(ws) && ValueOk(Obj(pad, ms)) && FlatInputs(ms)
    ensures ParseBody(ws + (ValueText(Obj(pad, ms), "") + trailing)) == Meaning(ms, EmptyRequest)
  {
    RequestReadAs(ws, pad, ms, trailing);
    FlatReadAs(ms, EmptyRequest);
  }

  /** So such a request is accepted if and only if no member is refused and some member gives
      an input, and that input is what comes out. */
  lemma AcceptedIff(ws: string, pad: string, ms: Members, trailing: string)
    requires AllWs(ws) && ValueOk(Obj(pad, ms)) && FlatInputs(ms)
    ensures var parsed, input := ParseBody(ws + (ValueText(Obj(pad, ms), "") + trailing)), LastText(ms, "input", InputText);
      && (parsed.Some? <==> NoneRefused(ms) && input.Some?)
      && (parsed.Some? ==> parsed.value.input == input)
  {
    RequestRecovered(ws, pad, ms, trailing);
    MeaningIs(ms, EmptyRequest);
  }

  // What the parser makes of texts that are no objects

  /** Any other value is refused. */
  lemma NonObjectRefused(ws: string, v: Value, trailing: string)
    requires AllWs(ws) && ValueOk(v) && !v.Obj?
    ensures ParseBody(ws + ValueText(v, trailing)) == None && ParseBody(ws) == None
  {
    FirstCharOfValue(v, trailing);
    WsSkipped(ws, ValueText(v, trailing));
    WsSkipped(ws, "");
    assert ws + "" == ws;
    if v.Num? {
      var n := v.number;
      assert ValueText(v, trailing)[0] == if n.minus then '-' else n.whole[0];
      assert IsDigit(n.whole[0]);
    }
  }

  /** Commas between members are not counted: any number of them, or none, will do. */
  lemma CommasIgnored(req: Request, ws: string, k: string)
    requires AllWs(ws)
    ensures ReadMembers(req, ws + ([','] + k)) == ReadMembers(req, k)
  {
    LeadingWs(req, ws, [','] + k);
  }

  /** White space behind the last value. */
  function LastAfter(ms: Members): string {
    match ms
    case NoMembers => ""
    case Member(_, _, _, _, _, after, tail) => if tail.NoMembers? then after else LastAfter(tail)
  }

  /** An object that is cut off behind its last value, before the closing brace, is accepted
      like a whole one - unless white space follows the value. */
  lemma {:induction false} UnclosedRead(ms: Members, req: Request)
    requires MembersOk(ms) && FlatInputs(ms)
    ensures ReadMembers(req, MembersText(ms, "")) == if LastAfter(ms) == "" then Meaning(ms, req) else None
    decreases ms
  {
    match ms
    case NoMembers =>
    case Member(before, key, beforeColon, afterColon, v, after, tail) =>
      if v.Arr? {
        FlatElems(v.elems);
      }
      var next := FieldMeaning(Content(key), v, req);
      if tail.NoMembers? {
        LastFieldConsumed(before, key, beforeColon, afterColon, v, after, req);
      } else {
        var rest := MemberRest(tail, "");
        assert rest[1..] == MembersText(tail, "") && SkipWs(rest) == rest;
        FieldConsumed(before, key, beforeColon, afterColon, v, after, rest, req);
        if next.Some? {
          UnclosedRead(tail, next.value);
        }
      }
  }

  lemma LastFieldConsumed(before: string, key: seq<StrItem>, beforeColon: string, afterColon: string,
                          v: Value, after: string, req: Request)
    requires AllWs(before) && ItemsOk(key) && AllWs(beforeColon) && AllWs(afterColon) && ValueOk(v) && AllWs(after)
    requires Content(key) == "input" && v.Arr? ==> ElemsClosing(v.elems).Flat?
    ensures ReadMembers(req, FieldText(before, key, beforeColon, afterColon, v, after, ""))
         == match FieldMeaning(Content(key), v, req) case None => None case Some(r) => if after == "" then Finish(r) else None
  {
    assert after + "" == after;
    FirstCharOfValue(v, after);
    MemberRead(before, key, beforeColon, afterColon, ValueText(v, after), req);
    if after != "" {
      assert after[0] in after;
    }
    FieldRead(key, req, v, after);
    WsSkipped(after, "");
  }

  lemma UnclosedBody(ms: Members)
    requires MembersOk(ms) && FlatInputs(ms) && LastAfter(ms) == ""
    ensures ParseBody("{" + MembersText(ms, "")) == Meaning(ms, EmptyRequest)
  {
    var body := "{" + MembersText(ms, "");
    assert SkipWs(body) == body && body[1..] == MembersText(ms, "");
    UnclosedRead(ms, EmptyRequest);
  }

  /** A request whose first member is an input array that is not flat: refused when the
      first array to close sits in an array, otherwise decided by the members behind that
      array in the inner object, and not by the members behind the input. */
  lemma NestedInputOutcome(ws: string, pad: string, ms: Members, trailing: string)
    requires AllWs(ws) && ValueOk(Obj(pad, ms)) && ms.Member? && Content(ms.key) == "input" && ms.v.Arr?
    requires FieldMeaning("input", ms.v, EmptyRequest).Some?
    ensures var parsed := ParseBody(ws + (ValueText(Obj(pad, ms), "") + trailing));
      match ElemsClosing(ms.v.elems)
      case Flat => parsed == ReadAs(ms.tail, FieldMeaning("input", ms.v, EmptyRequest).value)
      case InArray => parsed == None
      case InObject(inner) => parsed == ReadAs(inner, FieldMeaning("input", ms.v, EmptyRequest).value)
  {
    RequestReadAs(ws, pad, ms, trailing);
  }

  function ModelMember(model: seq<StrItem>, n: seq<StrItem>): Members {
    Member("", model, "", "", Str(n), "", NoMembers)
  }

  /** When the members behind the array that closes first set the model to n, the parser
      returns n, although the request goes on to say m. */
  lemma InnerModelTakesOver(ms: Members, model: seq<StrItem>, n: seq<StrItem>, m: seq<StrItem>)
    requires ms.Member? && Content(ms.key) == "input" && ms.v.Arr?
    requires ElemsClosing(ms.v.elems) == InObject(ModelMember(model, n)) && ms.tail == ModelMember(model, m)
    requires Content(model) == "model" && Meaning(ms, EmptyRequest).Some?
    ensures var read, meant := ReadAs(ms, EmptyRequest), Meaning(ms, EmptyRequest);
      && read == Some(meant.value.(model := Cut(Content(n), MODEL_CAP)))
      && meant.value.model == Cut(Content(m), MODEL_CAP)
  {
    var req := FieldMeaning("input", ms.v, EmptyRequest).value;
    ModelRead(model, n, req);
    ModelRead(model, m, req);
  }

  lemma ModelRead(model: seq<StrItem>, n: seq<StrItem>, req: Request)
    requires Content(model) == "model"
    ensures ReadAs(ModelMember(model, n), req) == Finish(req.(model := Cut(Content(n), MODEL_CAP)))
    ensures Meaning(ModelMember(model, n), req) == Finish(req.(model := Cut(Content(n), MODEL_CAP)))
  {
  }

  lemma InnerShape(a: seq<StrItem>, list: Elems, tail: Members)
    requires ItemsOk(a) && ElemsOk(list) && NoArraysInElems(list) && MembersOk(tail)
    ensures var inner := Member("", a, "", "", Arr("", list), "", tail);
      MembersOk(inner) && MembersClosing(inner) == InObject(tail)
  {
    FlatElems(list);
    assert ValueOk(Arr("", list)) && ValueClosing(Arr("", list)).Flat?;
  }

  lemma InputShape(x: seq<StrItem>, inner: Members, c: Closing)
    requires ItemsOk(x) && MembersOk(inner) && MembersClosing(inner) == c && !c.Flat?
    ensures var es := Elem("", Str(x), "", Elem("", Obj("", inner), "", NoElems));
      ElemsOk(es) && ElemsClosing(es) == c
  {
    assert ValueOk(Obj("", inner)) && ValueClosing(Obj("", inner)) == c;
    assert ElemsClosing(Elem("", Obj("", inner), "", NoElems)) == c;
  }

  /** Such requests exist: {"input":["x",{"a":[1],"model":"n"}],"model":"m"}, and with any
      strings and any flat inner array in these places. */
  lemma InnerModelExists(input: seq<StrItem>, x: seq<StrItem>, a: seq<StrItem>, list: Elems, model: seq<StrItem>,
                         n: seq<StrItem>, m: seq<StrItem>) returns (ms: Members)
    requires ItemsOk(input) && Content(input) == "input" && ItemsOk(model) && Content(model) == "model"
    requires ItemsOk(x) && |Content(x)| <= MAX_INPUT_LEN && ItemsOk(n) && ItemsOk(m) && ItemsOk(a)
    requires ElemsOk(list) && NoArraysInElems(list)
    ensures MembersOk(ms) && ms.Member? && Content(ms.key) == "input" && ms.v.Arr?
    ensures ElemsClosing(ms.v.elems) == InObject(ModelMember(model, n)) && ms.tail == ModelMember(model, m)
    ensures Meaning(ms, EmptyRequest).Some?
  {
    var inner := Member("", a, "", "", Arr("", list), "", ModelMember(model, n));
    InnerShape(a, list, ModelMember(model, n));
    InputShape(x, inner, InObject(ModelMember(model, n)));
    ModelRead(model, m, EmptyRequest.(input := Some(Content(x))));
    var es := Elem("", Str(x), "", Elem("", Obj("", inner), "", NoElems));
    ms := Member("", input, "", "", Arr("", es), "", ModelMember(model, m));
  }
}
