/**
 json_generate_embed_response (memory/mem9/embed-service/json.c): the reply to an embedding
 request, written into a buffer of fixed size.
 */
module ResponseWriter {
  import opened Wrappers
  import opened JsonGrammar
  import opened JsonScanner
  import opened FloatText

  const RESPONSE_BUF_SIZE := 8 * 1024
  const EMBED_DIM := 256

  /** The words in the reply. */
  datatype Words = Words(
    objectKey: string, listWord: string, dataKey: string, embeddingKey: string, indexKey: string,
    modelKey: string, usageKey: string, promptKey: string, totalKey: string)

  const WORDS := Words("object", "list", "data", "embedding", "index", "model", "usage", "prompt_tokens", "total_tokens")

  // The fixed parts of the reply, each followed by k.

  function Quoted(s: string): string {
    ['"'] + (s + ['"'])
  }

  function Key(s: string): string {
    Quoted(s) + [':']
  }

  function HeadText(w: Words, k: string): string {
    "{" + (Key(w.objectKey) + (Quoted(w.listWord) + ("," + (Key(w.dataKey) + ("[" + EntryHeadText(w, k))))))
  }

  function EntryHeadText(w: Words, k: string): string {
    "{" + (Key(w.objectKey) + (Quoted(w.embeddingKey) + ("," + (Key(w.embeddingKey) + ("[" + k)))))
  }

  function MiddleText(w: Words, k: string): string {
    "]" + ("," + (Key(w.indexKey) + ("0" + ("}" + ("]" + ("," + (Key(w.modelKey) + (['"'] + k))))))))
  }

  function FootText(w: Words): string {
    ['"'] + ("," + (Key(w.usageKey) + ("{" + (Key(w.promptKey) + ("0" + ("," + (Key(w.totalKey) + ("0" + ("}" + "}")))))))))
  }

  /** The numbers with commas between them. */
  function NumbersText(ns: seq<Number>): string {
    if ns == [] then ""
    else NumbersText(ns[..|ns| - 1]) + Comma(|ns| - 1) + NumberText(ns[|ns| - 1], "")
  }

  function ResponseText(w: Words, ns: seq<Number>, model: string): string {
    HeadText(w, "") + NumbersText(ns) + TailText(w, model)
  }

  function TailText(w: Words, model: string): string {
    MiddleText(w, "") + model + FootText(w)
  }

  /** Each number is the decimal text of its embedding value. */
  ghost predicate PrintsAll(embedding: seq<real>, ns: seq<Number>) {
    && |ns| == |embedding|
    && forall i | 0 <= i < |ns| :: (NumberText(ns[i], ""), ns[i]) in Numerals(embedding[i])
  }

  predicate InRange(embedding: seq<real>) {
    forall x | x in embedding :: -1.0 <= x <= 1.0
  }

  /** The reply fits when each number gets its at most eleven bytes and a comma. */
  predicate Roomy(w: Words, dims: nat, model: string, cap: nat) {
    cap >= 256 && |HeadText(w, "")| + 12 * dims + 14 + |TailText(w, model)| <= cap
  }

  method GenerateEmbedResponse(fl: real -> real, embedding: seq<real>, model: Option<string>, out: array<char>)
    returns (r: int, ghost ns: seq<Number>)
    requires SingleRounding(fl) && InRange(embedding)
    modifies out
    ensures -1 <= r <= out.Length
    ensures r >= 0 ==> PrintsAll(embedding, ns)
    ensures r >= 0 ==> out[..r] == ResponseText(WORDS, ns, if model.Some? then model.value else "local-embed")
    ensures Roomy(WORDS, |embedding|, ModelName(model), out.Length) ==> r >= 0
  {
    r, ns := Generate(fl, HeadText(WORDS, ""), embedding, TailText(WORDS, ModelName(model)), out);
  }

  method Generate(fl: real -> real, head: string, embedding: seq<real>, tail: string, out: array<char>) returns (r: int, ghost ns: seq<Number>)
    requires SingleRounding(fl) && InRange(embedding)
    modifies out
    ensures -1 <= r <= out.Length
    ensures r >= 0 ==> PrintsAll(embedding, ns) && out[..r] == head + NumbersText(ns) + tail
    ensures out.Length >= 256 && |head| + 12 * |embedding| + 14 + |tail| <= out.Length ==> r >= 0
  {
    ns := [];
    if out.Length < 256 {
      return -1, ns;
    }
    assert out[..0] == "" && "" + head == head;
    r := Snprintf(out, 0, head, "");
    if r < 0 {
      return -1, ns;
    }
    r, ns := WriteNumbers(fl, embedding, out, r, head);
    if r < 0 {
      return -1, ns;
    }
    assert r == |head + NumbersText(ns)|;
    r := Snprintf(out, r, tail, head + NumbersText(ns));
  }

  function ModelName(model: Option<string>): string {
    if model.Some? then model.value else "local-embed"
  }

  /** snprintf and its check: the text and a NUL, or nothing usable. */
  method Snprintf(out: array<char>, pos: nat, text: string, ghost pre: string) returns (next: int)
    requires |pre| == pos < out.Length && out[..pos] == pre
    modifies out
    ensures -1 <= next && (next < 0 <==> |text| >= out.Length - pos)
    ensures next >= 0 ==> next == pos + |text| < out.Length && out[..next] == pre + text
  {
    if |text| >= out.Length - pos {
      var k := out.Length - pos - 1;
      Put(out, pos, text[..k] + ['\0'], pre, "");
      return -1;
    }
    Put(out, pos, text, pre, "");
    assert pre + ("" + text) == pre + text;
    next := pos + |text|;
    ghost var written := out[..next];
    out[next] := '\0';
    assert out[..next] == written;
  }

  method WriteNumbers(fl: real -> real, embedding: seq<real>, out: array<char>, start: nat, ghost head: string) returns (pos: int, ghost ns: seq<Number>)
    requires SingleRounding(fl) && InRange(embedding) && start == |head| < out.Length && out[..start] == head
    modifies out
    ensures -1 <= pos < out.Length
    ensures pos >= 0 ==>
      && PrintsAll(embedding, ns)
      && out[..pos] == head + NumbersText(ns) && |NumbersText(ns)| <= 12 * |embedding|
    ensures start + 12 * |embedding| + 14 <= out.Length ==> pos >= 0
  {
    pos, ns := start, [];
    var i := 0;
    assert head + "" == head;
    while i < |embedding|
      invariant 0 <= i <= |embedding| && start <= pos < out.Length && PrintsAll(embedding[..i], ns)
      invariant out[..pos] == head + NumbersText(ns) && |NumbersText(ns)| <= 12 * i
    {
      assert embedding[i] in embedding && embedding[..i + 1] == embedding[..i] + [embedding[i]];
      ghost var before := ns;
      pos, ns := WriteNumber(fl, embedding[i], i, out, pos, ns, head);
      if pos < 0 {
        return -1, ns;
      }
      OneMorePrinted(embedding[..i], before, embedding[i], ns);
      i := i + 1;
    }
    assert embedding[..i] == embedding;
  }

  lemma OneMorePrinted(embedding: seq<real>, before: seq<Number>, x: real, ns: seq<Number>)
    requires PrintsAll(embedding, before) && |ns| == |before| + 1 && ns[..|before|] == before
    requires (NumberText(ns[|before|], ""), ns[|before|]) in Numerals(x)
    ensures PrintsAll(embedding + [x], ns)
  {
    forall i | 0 <= i < |ns|
      ensures (NumberText(ns[i], ""), ns[i]) in Numerals((embedding + [x])[i])
    {
      if i < |before| {
        assert ns[i] == ns[..|before|][i];
      }
    }
  }

  /** One turn of the loop: comma and number, or -1 when the room gets short. */
  method WriteNumber(fl: real -> real, x: real, i: nat, out: array<char>, start: nat, ghost ns: seq<Number>, ghost head: string)
    returns (pos: int, ghost more: seq<Number>)
    requires SingleRounding(fl) && -1.0 <= x <= 1.0 && |ns| == i && start < out.Length && out[..start] == head + NumbersText(ns)
    modifies out
    ensures -1 <= pos < out.Length
    ensures pos >= 0 ==>
      && start < pos <= start + 12 && |more| == i + 1 && more[..i] == ns
      && (NumberText(more[i], ""), more[i]) in Numerals(x)
      && out[..pos] == head + NumbersText(more) && |NumbersText(more)| <= |NumbersText(ns)| + 12
    ensures out.Length - start >= 15 ==> pos >= 0
  {
    more := ns;
    ghost var before := head + NumbersText(ns);
    pos := WriteComma(i, out, start, before);
    if pos < 0 || out.Length - pos < 14 {
      return -1, more;
    }
    var n, number := WriteText(fl, x, out, pos, before + Comma(i));
    more := ns + [number];
    NumberAppended(head, ns, number);
    if n >= out.Length - pos {
      return -1, more;
    }
    pos := pos + n;
  }

  function Comma(i: nat): string {
    if i > 0 then "," else ""
  }

  /** The comma in front of every number but the first. */
  method WriteComma(i: nat, out: array<char>, start: nat, ghost before: string) returns (pos: int)
    requires start < out.Length && out[..start] == before
    modifies out
    ensures -1 <= pos < out.Length && (pos < 0 ==> i > 0 && out.Length - start < 2)
    ensures pos >= 0 ==> pos == start + |Comma(i)| && out[..pos] == before + Comma(i)
  {
    pos := start;
    if i > 0 {
      if out.Length - pos < 2 {
        return -1;
      }
      Put(out, pos, ",", before, "");
      pos := pos + 1;
    }
  }

  /** fast_ftoa behind what is already there. */
  method WriteText(fl: real -> real, x: real, out: array<char>, pos: nat, ghost before: string) returns (n: nat, ghost number: Number)
    requires SingleRounding(fl) && -1.0 <= x <= 1.0 && pos + 14 <= out.Length && out[..pos] == before
    modifies out
    ensures 0 < n <= 11 && n == |NumberText(number, "")| && (NumberText(number, ""), number) in Numerals(x)
    ensures out[..pos + n] == before + NumberText(number, "")
  {
    var fallback;
    n, fallback, number := FastFtoa(fl, x, out, pos);
    assert out[..pos + n] == out[..pos] + out[pos..pos + n];
  }

  lemma NumberAppended(head: string, ns: seq<Number>, n: Number)
    ensures (ns + [n])[..|ns|] == ns
    ensures |NumbersText(ns + [n])| == |NumbersText(ns)| + |Comma(|ns|)| + |NumberText(n, "")|
    ensures head + NumbersText(ns + [n]) == head + NumbersText(ns) + Comma(|ns|) + NumberText(n, "")
  {
    NumbersSnoc(ns, n);
    Reassociate(head, NumbersText(ns), Comma(|ns|), NumberText(n, ""));
  }

  lemma NumbersSnoc(ns: seq<Number>, n: Number)
    ensures NumbersText(ns + [n]) == NumbersText(ns) + Comma(|ns|) + NumberText(n, "")
  {
    assert (ns + [n])[..|ns|] == ns;
  }

  lemma Reassociate(a: string, b: string, c: string, d: string)
    ensures a + b + c + d == a + (b + c + d)
  {
  }

  /** The service's own reply - 256 numbers, a model name from a buffer of 128 bytes, 8 KB
      of room - always fits. */
  lemma ServiceReplyFits(model: string)
    requires |model| < 128
    ensures Roomy(WORDS, EMBED_DIM, model, RESPONSE_BUF_SIZE)
  {
  }

  /** The reply, letter by letter. */
  lemma ReplyText(ns: seq<Number>, model: string)
    ensures ResponseText(WORDS, ns, model)
      == ("{\"object\":\"list\"," + ("\"data\":[" + ("{\"object\":\"embedding\"," + "\"embedding\":["))) + NumbersText(ns)
       + ("],\"index\":0}]," + "\"model\":\"" + model + ("\",\"usage\":{" + ("\"prompt_tokens\":0," + "\"total_tokens\":0}}")))
  {
    HeadIs();
    EntryHeadIs();
    MiddleIs();
    FootIs();
  }

  lemma HeadIs()
    ensures HeadText(WORDS, "") == "{\"object\":\"list\"," + ("\"data\":[" + EntryHeadText(WORDS, ""))
  {
    ShortKeys();
    ListPiece("\"data\":[" + EntryHeadText(WORDS, ""));
    DataPiece(EntryHeadText(WORDS, ""));
  }

  lemma ShortKeys()
    ensures Key("object") == "\"object\":" && Quoted("list") == "\"list\"" && Key("data") == "\"data\":" && Key("usage") == "\"usage\":"
  {
  }

  lemma LongKeys()
    ensures Key("embedding") == "\"embedding\":" && Quoted("embedding") == "\"embedding\""
    ensures Key("prompt_tokens") == "\"prompt_tokens\":" && Key("total_tokens") == "\"total_tokens\":"
  {
  }

  lemma ListPiece(k: string)
    ensures "{" + ("\"object\":" + ("\"list\"" + ("," + k))) == "{\"object\":\"list\"," + k
  {
  }

  lemma DataPiece(k: string)
    ensures "\"data\":" + ("[" + k) == "\"data\":[" + k
  {
  }

  lemma EmbeddingPiece(k: string)
    ensures "{" + ("\"object\":" + ("\"embedding\"" + ("," + k))) == "{\"object\":\"embedding\"," + k
  {
  }

  lemma PromptPiece(k: string)
    ensures ['"'] + ("," + ("\"usage\":" + ("{" + k))) == "\",\"usage\":{" + k
    ensures "\"prompt_tokens\":" + ("0" + ("," + k)) == "\"prompt_tokens\":0," + k
  {
  }

  lemma EntryHeadIs()
    ensures EntryHeadText(WORDS, "") == "{\"object\":\"embedding\"," + "\"embedding\":["
  {
    ShortKeys();
    LongKeys();
    EmbeddingPiece("\"embedding\":[");
    assert "\"embedding\":" + ("[" + "") == "\"embedding\":[";
  }

  lemma MiddleIs()
    ensures MiddleText(WORDS, "") == "],\"index\":0}]," + "\"model\":\""
  {
  }

  lemma FootIs()
    ensures FootText(WORDS) == "\",\"usage\":{" + ("\"prompt_tokens\":0," + "\"total_tokens\":0}}")
  {
    ShortKeys();
    LongKeys();
    var total := "\"total_tokens\":0}}";
    assert "\"total_tokens\":" + ("0" + ("}" + "}")) == total;
    PromptPiece(total);
    PromptPiece("\"prompt_tokens\":0," + total);
  }

  // ---------------------------------------------------------------------------
  // When the reply is JSON
  // ---------------------------------------------------------------------------

  /** A text that needs no escapes inside a JSON string. */
  predicate NeedsNoEscape(s: string) {
    forall c | c in s :: c >= ' ' && c != '"' && c != '\\'
  }

  predicate PlainWords(w: Words) {
    && NeedsNoEscape(w.objectKey) && NeedsNoEscape(w.listWord) && NeedsNoEscape(w.dataKey)
    && NeedsNoEscape(w.embeddingKey) && NeedsNoEscape(w.indexKey) && NeedsNoEscape(w.modelKey)
    && NeedsNoEscape(w.usageKey) && NeedsNoEscape(w.promptKey) && NeedsNoEscape(w.totalKey)
  }

  function PlainItems(s: string): seq<StrItem> {
    if s == "" then [] else [Plain(s[0])] + PlainItems(s[1..])
  }

  lemma {:induction false} PlainItemsText(s: string)
    requires NeedsNoEscape(s)
    ensures ItemsOk(PlainItems(s)) && ItemsText(PlainItems(s), "") == s && Content(PlainItems(s)) == s
  {
    if s != "" {
      assert s[0] in s && forall c | c in s[1..] :: c in s;
      PlainItemsText(s[1..]);
      var items := PlainItems(s);
      assert items[1..] == PlainItems(s[1..]) && ItemOk(items[0]);
      assert s == [s[0]] + s[1..];
    }
  }

  /** Escapes make a text longer than its content. */
  lemma {:induction false} EscapesTakeRoom(items: seq<StrItem>)
    requires ItemsOk(items)
    ensures |ItemsText(items, "")| >= |Content(items)|
    ensures |ItemsText(items, "")| == |Content(items)| ==> NeedsNoEscape(ItemsText(items, ""))
  {
    if items != [] {
      assert items[0] in items && forall i | i in items[1..] :: i in items;
      EscapesTakeRoom(items[1..]);
    }
  }

  function Zero(): Value {
    Num(Number(false, "0", "", NoExponent))
  }

  function Field(key: string, v: Value, tail: Members): Members {
    Member("", PlainItems(key), "", "", v, "", tail)
  }

  /** The value of a list of numbers. */
  function ElemsOf(ns: seq<Number>): Elems {
    if ns == [] then NoElems else Elem("", Num(ns[0]), "", ElemsOf(ns[1..]))
  }

  /** The value that a reply should denote: the numbers and the model name. */
  function ResponseValue(w: Words, ns: seq<Number>, name: seq<StrItem>): Value {
    Obj("", Field(w.objectKey, Str(PlainItems(w.listWord)), DataField(w, ns, ModelField(w, name))))
  }

  function DataField(w: Words, ns: seq<Number>, tail: Members): Members {
    Field(w.dataKey, Arr("", Elem("", EntryValue(w, ns), "", NoElems)), tail)
  }

  function ModelField(w: Words, name: seq<StrItem>): Members {
    Field(w.modelKey, Str(name), Field(w.usageKey, UsageValue(w), NoMembers))
  }

  function EntryValue(w: Words, ns: seq<Number>): Value {
    Obj("",
      Field(w.objectKey, Str(PlainItems(w.embeddingKey)),
      Field(w.embeddingKey, Arr("", ElemsOf(ns)),
      Field(w.indexKey, Zero(), NoMembers))))
  }

  function UsageValue(w: Words): Value {
    Obj("", Field(w.promptKey, Zero(), Field(w.totalKey, Zero(), NoMembers)))
  }

  lemma NoPadding(s: string)
    ensures "" + s == s
  {
  }

  lemma QuotedText(items: seq<StrItem>, k: string)
    ensures StringText(items, k) == ['"'] + (ItemsText(items, "") + (['"'] + k))
  {
    ItemsTextAppends(items, ['"'] + k);
  }

  lemma QuotedThen(s: string, k: string)
    ensures ['"'] + (s + (['"'] + k)) == Quoted(s) + k
  {
  }

  lemma PlainStringText(s: string, k: string)
    requires NeedsNoEscape(s)
    ensures ItemsOk(PlainItems(s)) && StringText(PlainItems(s), k) == Quoted(s) + k
  {
    PlainItemsText(s);
    QuotedText(PlainItems(s), k);
    QuotedThen(s, k);
  }

  /** A field without white space: its key, its value and what follows. */
  lemma FieldPiece(key: string, v: Value, tail: Members, k: string)
    requires NeedsNoEscape(key)
    ensures MembersOk(Field(key, v, tail)) <==> ValueOk(v) && MembersOk(tail)
    ensures MembersText(Field(key, v, tail), k)
         == Key(key) + ValueText(v, if tail.NoMembers? then k else "," + MembersText(tail, k))
  {
    var rest := if tail.NoMembers? then k else [','] + MembersText(tail, k);
    var value := ValueText(v, rest);
    NoPadding(rest);
    NoPadding(value);
    NoPadding([':'] + value);
    PlainStringText(key, [':'] + value);
    NoPadding(StringText(PlainItems(key), [':'] + value));
    Assoc(Quoted(key), [':'], value);
  }

  lemma StringPiece(s: string, k: string)
    requires NeedsNoEscape(s)
    ensures ValueOk(Str(PlainItems(s))) && ValueText(Str(PlainItems(s)), k) == Quoted(s) + k
  {
    PlainStringText(s, k);
  }

  lemma ZeroPiece(k: string)
    ensures ValueOk(Zero()) && ValueText(Zero(), k) == "0" + k
  {
    NoPadding(k);
    NoPadding("0" + k);
  }

  lemma ContainerPiece(ms: Members, es: Elems, k: string)
    ensures (ValueOk(Obj("", ms)) <==> MembersOk(ms)) && (ValueOk(Arr("", es)) <==> ElemsOk(es))
    ensures ValueText(Obj("", ms), k) == "{" + MembersText(ms, "}" + k)
    ensures ValueText(Arr("", es), k) == "[" + ElemsText(es, "]" + k)
  {
    NoPadding(MembersText(ms, "}" + k));
    NoPadding(ElemsText(es, "]" + k));
  }

  lemma SingletonPiece(v: Value, k: string)
    ensures ElemsOk(Elem("", v, "", NoElems)) <==> ValueOk(v)
    ensures ElemsText(Elem("", v, "", NoElems), k) == ValueText(v, k)
  {
    NoPadding(k);
    NoPadding(ValueText(v, k));
  }

  lemma {:induction false} NumberElemsText(ns: seq<Number>, k: string)
    requires forall n | n in ns :: NumberOk(n)
    ensures ElemsOk(ElemsOf(ns)) && ElemsText(ElemsOf(ns), k) == FrontText(ns) + k
    decreases |ns|
  {
    if ns == [] {
      NoPadding(k);
    } else {
      assert ns[0] in ns && forall n | n in ns[1..] :: n in ns;
      NumberElemsText(ns[1..], k);
      ElemText(ns[0], ElemsOf(ns[1..]), FrontText(ns[1..]), k);
    }
  }

  lemma ElemText(n: Number, tail: Elems, text: string, k: string)
    requires ElemsText(tail, k) == text + k
    ensures ElemsText(Elem("", Num(n), "", tail), k)
         == NumberText(n, "") + (if tail.NoElems? then "" else [','] + text) + k
  {
    var rest := if tail.NoElems? then k else [','] + ElemsText(tail, k);
    NumberTextAppends(n, rest);
    NoPadding(rest);
    NoPadding(NumberText(n, rest));
    Assoc([','], text, k);
    Assoc(NumberText(n, ""), if tail.NoElems? then "" else [','] + text, k);
  }

  /** The numbers with commas, read from the front. */
  function FrontText(ns: seq<Number>): string {
    if ns == [] then ""
    else NumberText(ns[0], "") + (if |ns| == 1 then "" else [','] + FrontText(ns[1..]))
  }

  lemma {:induction false} FrontAppended(ns: seq<Number>, n: Number)
    ensures FrontText(ns + [n]) == FrontText(ns) + Comma(|ns|) + NumberText(n, "")
  {
    var last := NumberText(n, "");
    if ns == [] {
      assert [n][0] == n && ns + [n] == [n];
      NoPadding(last);
    } else {
      var tail := ns[1..];
      assert (ns + [n])[0] == ns[0] && (ns + [n])[1..] == tail + [n];
      FrontAppended(tail, n);
      var t := NumberText(ns[0], "");
      if tail != [] {
        Regroup(t, [','], FrontText(tail), ",", last);
        Assoc(t, [','] + FrontText(tail), ",");
        Assoc(FrontText(tail), ",", last);
        Assoc([','], FrontText(tail), ",");
      } else {
        NoPadding(last);
        assert t + "" == t;
        Assoc(t, ",", last);
      }
    }
  }

  lemma {:induction false} FrontIsNumbersText(ns: seq<Number>)
    ensures FrontText(ns) == NumbersText(ns)
  {
    if ns != [] {
      var init, n := ns[..|ns| - 1], ns[|ns| - 1];
      FrontIsNumbersText(init);
      assert ns == init + [n];
      FrontAppended(init, n);
      NumbersSnoc(init, n);
    }
  }

  lemma UsageText(w: Words, k: string)
    requires PlainWords(w)
    ensures ValueOk(UsageValue(w))
    ensures ValueText(UsageValue(w), k)
         == "{" + (Key(w.promptKey) + ("0" + ("," + (Key(w.totalKey) + ("0" + ("}" + k))))))
  {
    var total := Field(w.totalKey, Zero(), NoMembers);
    ContainerPiece(Field(w.promptKey, Zero(), total), NoElems, k);
    FieldPiece(w.totalKey, Zero(), NoMembers, "}" + k);
    FieldPiece(w.promptKey, Zero(), total, "}" + k);
    ZeroPiece("}" + k);
    ZeroPiece("," + MembersText(total, "}" + k));
  }

  lemma IndexText(w: Words, k: string)
    requires PlainWords(w)
    ensures var index := Field(w.indexKey, Zero(), NoMembers);
      MembersOk(index) && MembersText(index, k) == Key(w.indexKey) + ("0" + k)
  {
    FieldPiece(w.indexKey, Zero(), NoMembers, k);
    ZeroPiece(k);
  }

  lemma EntryText(w: Words, ns: seq<Number>, k: string)
    requires PlainWords(w) && forall n | n in ns :: NumberOk(n)
    ensures ValueOk(EntryValue(w, ns))
    ensures ValueText(EntryValue(w, ns), k)
         == EntryHeadText(w, NumbersText(ns) + ("]" + ("," + (Key(w.indexKey) + ("0" + ("}" + k))))))
  {
    var index := Field(w.indexKey, Zero(), NoMembers);
    var list := Arr("", ElemsOf(ns));
    var embedding := Field(w.embeddingKey, list, index);
    var behind := "," + MembersText(index, "}" + k);
    ContainerPiece(Field(w.objectKey, Str(PlainItems(w.embeddingKey)), embedding), NoElems, k);
    IndexText(w, "}" + k);
    FieldPiece(w.embeddingKey, list, index, "}" + k);
    ContainerPiece(NoMembers, ElemsOf(ns), behind);
    NumberElemsText(ns, "]" + behind);
    FrontIsNumbersText(ns);
    FieldPiece(w.objectKey, Str(PlainItems(w.embeddingKey)), embedding, "}" + k);
    StringPiece(w.embeddingKey, "," + MembersText(embedding, "}" + k));
  }

  lemma ModelText(w: Words, name: seq<StrItem>)
    requires PlainWords(w) && ItemsOk(name)
    ensures MembersOk(ModelField(w, name))
    ensures MembersText(ModelField(w, name), "}") == Key(w.modelKey) + (['"'] + (ItemsText(name, "") + FootText(w)))
  {
    var usage := Field(w.usageKey, UsageValue(w), NoMembers);
    FieldPiece(w.usageKey, UsageValue(w), NoMembers, "}");
    UsageText(w, "}");
    FieldPiece(w.modelKey, Str(name), usage, "}");
    QuotedText(name, "," + MembersText(usage, "}"));
  }

  lemma ResponseValueText(w: Words, ns: seq<Number>, name: seq<StrItem>)
    requires PlainWords(w) && (forall n | n in ns :: NumberOk(n)) && ItemsOk(name)
    ensures ValueOk(ResponseValue(w, ns, name))
    ensures ValueText(ResponseValue(w, ns, name), "") == HeadText(w, NumbersText(ns) + MiddleText(w, ItemsText(name, "") + FootText(w)))
  {
    var tail := ModelField(w, name);
    var data := DataField(w, ns, tail);
    var list := Arr("", Elem("", EntryValue(w, ns), "", NoElems));
    var behind := "," + MembersText(tail, "}");
    ModelText(w, name);
    assert "}" + "" == "}";
    ContainerPiece(Field(w.objectKey, Str(PlainItems(w.listWord)), data), NoElems, "");
    FieldPiece(w.dataKey, list, tail, "}");
    ContainerPiece(NoMembers, Elem("", EntryValue(w, ns), "", NoElems), behind);
    SingletonPiece(EntryValue(w, ns), "]" + behind);
    EntryText(w, ns, "]" + behind);
    FieldPiece(w.objectKey, Str(PlainItems(w.listWord)), data, "}");
    StringPiece(w.listWord, "," + MembersText(data, "}"));
  }

  lemma EntryHeadAppends(w: Words, k: string)
    ensures EntryHeadText(w, k) == EntryHeadText(w, "") + k
  {
    var a := "[" + "";
    var b := Key(w.embeddingKey) + a;
    var c := "," + b;
    var d := Quoted(w.embeddingKey) + c;
    var e := Key(w.objectKey) + d;
    assert "[" + k == a + k;
    Assoc(Key(w.embeddingKey), a, k);
    Assoc(",", b, k);
    Assoc(Quoted(w.embeddingKey), c, k);
    Assoc(Key(w.objectKey), d, k);
    Assoc("{", e, k);
  }

  lemma HeadAppends(w: Words, k: string)
    ensures HeadText(w, k) == HeadText(w, "") + k
  {
    EntryHeadAppends(w, k);
    var a := EntryHeadText(w, "");
    var b := "[" + a;
    var c := Key(w.dataKey) + b;
    var d := "," + c;
    var e := Quoted(w.listWord) + d;
    var f := Key(w.objectKey) + e;
    Assoc("[", a, k);
    Assoc(Key(w.dataKey), b, k);
    Assoc(",", c, k);
    Assoc(Quoted(w.listWord), d, k);
    Assoc(Key(w.objectKey), e, k);
    Assoc("{", f, k);
  }

  lemma MiddleAppends(w: Words, k: string)
    ensures MiddleText(w, k) == MiddleText(w, "") + k
  {
    var a := ['"'] + "";
    var b := Key(w.modelKey) + a;
    var c := "," + b;
    var d := "]" + c;
    var e := "}" + d;
    var f := "0" + e;
    var g := Key(w.indexKey) + f;
    var h := "," + g;
    assert ['"'] + k == a + k;
    Assoc(Key(w.modelKey), a, k);
    Assoc(",", b, k);
    Assoc("]", c, k);
    Assoc("}", d, k);
    Assoc("0", e, k);
    Assoc(Key(w.indexKey), f, k);
    Assoc(",", g, k);
    Assoc("]", h, k);
  }

  lemma ResponseTextPieces(w: Words, ns: seq<Number>, model: string)
    ensures ResponseText(w, ns, model) == HeadText(w, NumbersText(ns) + MiddleText(w, model + FootText(w)))
  {
    MiddleAppends(w, model + FootText(w));
    Assoc(MiddleText(w, ""), model, FootText(w));
    HeadAppends(w, NumbersText(ns) + TailText(w, model));
    Assoc(HeadText(w, ""), NumbersText(ns), TailText(w, model));
  }

  lemma NumbersOk(embedding: seq<real>, ns: seq<Number>)
    requires PrintsAll(embedding, ns)
    ensures forall n | n in ns :: NumberOk(n)
  {
    forall n | n in ns
      ensures NumberOk(n)
    {
      var i :| 0 <= i < |ns| && ns[i] == n;
      assert (NumberText(ns[i], ""), ns[i]) in Numerals(embedding[i]);
    }
  }

  /** The reply is the text of the value with this name, and the name reads as the model. */
  predicate Denotes(w: Words, ns: seq<Number>, model: string, name: seq<StrItem>) {
    && ItemsOk(name) && Content(name) == model
    && ValueOk(ResponseValue(w, ns, name)) && ResponseText(w, ns, model) == ValueText(ResponseValue(w, ns, name), "")
  }

  lemma DenotesPlain(w: Words, ns: seq<Number>, model: string)
    requires PlainWords(w) && (forall n | n in ns :: NumberOk(n)) && NeedsNoEscape(model)
    ensures Denotes(w, ns, model, PlainItems(model))
  {
    PlainItemsText(model);
    ResponseValueText(w, ns, PlainItems(model));
    ResponseTextPieces(w, ns, model);
  }

  lemma DenotedNeedsNoEscape(w: Words, ns: seq<Number>, model: string, name: seq<StrItem>)
    requires PlainWords(w) && (forall n | n in ns :: NumberOk(n)) && Denotes(w, ns, model, name)
    ensures NeedsNoEscape(model)
  {
    var text := ItemsText(name, "");
    ResponseValueText(w, ns, name);
    ResponseTextPieces(w, ns, text);
    SameMiddle(w, ns, model, text);
    EscapesTakeRoom(name);
  }

  lemma WordsArePlain()
    ensures PlainWords(WORDS)
  {
    ShortWordsArePlain();
    LongWordsArePlain();
  }

  lemma ShortWordsArePlain()
    ensures NeedsNoEscape("object") && NeedsNoEscape("list") && NeedsNoEscape("data")
    ensures NeedsNoEscape("index") && NeedsNoEscape("model") && NeedsNoEscape("usage")
  {
  }

  lemma LongWordsArePlain()
    ensures NeedsNoEscape("embedding") && NeedsNoEscape("prompt_tokens") && NeedsNoEscape("total_tokens")
  {
  }

  /** A model name that needs no escapes: the reply is the text of a well-formed value with
      exactly these numbers and this name, and the scanner reads it to its end. */
  lemma ResponseIsJson(embedding: seq<real>, ns: seq<Number>, model: string)
    requires PrintsAll(embedding, ns) && NeedsNoEscape(model)
    ensures Denotes(WORDS, ns, model, PlainItems(model))
    ensures SkipValue(ResponseText(WORDS, ns, model)) == Some("")
  {
    NumbersOk(embedding, ns);
    WordsArePlain();
    DenotesPlain(WORDS, ns, model);
    ReadToEnd(WORDS, ns, model);
  }

  lemma ReadToEnd(w: Words, ns: seq<Number>, model: string)
    requires Denotes(w, ns, model, PlainItems(model))
    ensures SkipValue(ResponseText(w, ns, model)) == Some("")
  {
    var t := ResponseText(w, ns, model);
    SkipsExactly("", ResponseValue(w, ns, PlainItems(model)), "");
    assert t + "" == t;
    NoPadding(t);
  }

  /** The name is written as it is: the reply denotes it if and only if it needs no escape.
      A request can carry any other name in escaped form. */
  lemma ReplyDenotesModelIff(embedding: seq<real>, ns: seq<Number>, model: string)
    requires PrintsAll(embedding, ns)
    ensures (exists name :: Denotes(WORDS, ns, model, name)) <==> NeedsNoEscape(model)
  {
    NumbersOk(embedding, ns);
    WordsArePlain();
    if NeedsNoEscape(model) {
      DenotesPlain(WORDS, ns, model);
    }
    if name :| Denotes(WORDS, ns, model, name) {
      DenotedNeedsNoEscape(WORDS, ns, model, name);
    }
  }

  lemma SameMiddle(w: Words, ns: seq<Number>, a: string, b: string)
    requires ResponseText(w, ns, a) == ResponseText(w, ns, b)
    ensures a == b
  {
    Inside(HeadText(w, "") + NumbersText(ns), MiddleText(w, ""), a, FootText(w));
    Inside(HeadText(w, "") + NumbersText(ns), MiddleText(w, ""), b, FootText(w));
  }

  lemma Inside(p: string, q: string, a: string, r: string)
    ensures var s := p + (q + a + r);
      |s| >= |p| + |q| + |r| && s[|p| + |q|..|s| - |r|] == a
  {
    var s := p + (q + a + r);
    assert s[|p|..] == q + a + r;
    assert s[|p|..][|q|..|q| + |a|] == a;
  }
}
