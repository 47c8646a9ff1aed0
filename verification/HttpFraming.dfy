/**
 Where the body of a request ends by section 6.3 of RFC 9112, and when the parser of
 memory/mem9/embed-service/http.c agrees.  The parser knows Content-Length only.
 */
module HttpFraming {
  import opened Ascii
  import opened CStrings
  import opened FloatText
  import opened HttpRequest
  import opened HttpMessage

  /** How the standard finds the length of a body: a number; by the transfer coding, which
      overrides any Content-Length; or not at all, an error that cannot be recovered. */
  datatype Framing = Known(length: nat) | ByTransferCoding | Unrecoverable

  predicate HasTransferEncoding(hs: seq<Header>) {
    exists h | h in hs :: h.Other? && LowerAll(h.name) == "transfer-encoding"
  }

  /** The values of all Content-Length lines, in order. */
  function Lengths(hs: seq<Header>): seq<nat>
    requires forall h | h in hs :: HeaderOk(h)
  {
    if hs == [] then []
    else LengthsOf(hs[0]) + Lengths(hs[1..])
  }

  function LengthsOf(h: Header): seq<nat>
    requires HeaderOk(h)
  {
    match h
    case Length(_, _, digits, _) => [DigitsValue(digits)]
    case Other(_, _) => []
  }

  predicate AllSame(values: seq<nat>) {
    forall v, w | v in values && w in values :: v == w
  }

  function StandardFraming(m: Message): Framing
    requires MessageOk(m)
  {
    var values := Lengths(m.headers);
    if HasTransferEncoding(m.headers) then ByTransferCoding
    else if !AllSame(values) then Unrecoverable
    else Known(if values == [] then 0 else values[0])
  }

  /** The last of some values, or else what there was before. */
  function LastOr(values: seq<nat>, before: nat): nat {
    if values == [] then before else Clamp(values[|values| - 1])
  }

  lemma LastOfTwo(a: seq<nat>, b: seq<nat>, before: nat)
    ensures LastOr(a + b, before) == if b == [] then LastOr(a, before) else LastOr(b, before)
  {
  }

  lemma OneLength(f: Fields, h: Header)
    requires HeaderOk(h)
    ensures HeaderMeaning(f, h).contentLength == LastOr(LengthsOf(h), f.contentLength)
  {
  }

  /** The parser takes the last Content-Length. */
  lemma {:induction false} LastLengthCounts(f: Fields, hs: seq<Header>)
    requires forall h | h in hs :: HeaderOk(h)
    ensures HeadersMeaning(f, hs).contentLength == LastOr(Lengths(hs), f.contentLength)
    decreases |hs|
  {
    if hs != [] {
      assert hs[0] in hs && forall h | h in hs[1..] :: h in hs;
      OneLength(f, hs[0]);
      LastLengthCounts(HeaderMeaning(f, hs[0]), hs[1..]);
      LastOfTwo(LengthsOf(hs[0]), Lengths(hs[1..]), f.contentLength);
    }
  }

  lemma LengthOfMessage(m: Message)
    requires MessageOk(m)
    ensures MessageFields(m).contentLength == LastOr(Lengths(m.headers), 0)
  {
    LastLengthCounts(Fields(MethodOf(m.word), Cut(m.path, PATH_CAP), "", 0), m.headers);
  }

  /** For every well-formed request the parser's length is the standard's if and only if
      there is no Transfer-Encoding, all Content-Length values are the same, and they fit a
      long. */
  lemma LengthIsStandardIff(m: Message)
    requires MessageOk(m)
    ensures var values := Lengths(m.headers);
      StandardFraming(m) == Known(MessageFields(m).contentLength)
      <==> !HasTransferEncoding(m.headers) && AllSame(values) && forall v | v in values :: v <= LONG_MAX
  {
    var values := Lengths(m.headers);
    LengthOfMessage(m);
    if values != [] {
      assert values[0] in values && values[|values| - 1] in values;
    }
  }

  /** Every well-formed request whose body has, by the standard, a length of at most 128 KB
      is recovered once the body has arrived. */
  lemma StandardRequestRecovered(m: Message, head: string, body: string, more: string, n: nat)
    requires MessageOk(m) && head == MessageText(m, "")
    requires StandardFraming(m) == Known(|body|) && |body| <= HTTP_MAX_BODY_SIZE
    requires |head| + |body| <= n <= |head + (body + more)|
    ensures Parse(head + (body + more), n) == Complete(|head| + |body|, MessageFields(m), body)
  {
    var values := Lengths(m.headers);
    LengthOfMessage(m);
    if values != [] {
      assert values[0] in values && values[|values| - 1] in values;
    }
    RequestRecovered(m, head, body, more, n);
  }

  lemma NoLength(m: Message)
    requires MessageOk(m) && Lengths(m.headers) == []
    ensures MessageFields(m).contentLength == 0
  {
    LengthOfMessage(m);
  }

  /** A request whose body comes in a transfer coding is taken for complete without it. */
  lemma TransferCodingIgnored(m: Message, more: string, n: nat)
    requires MessageOk(m) && HasTransferEncoding(m.headers) && Lengths(m.headers) == []
    requires |MessageText(m, "")| <= n <= |MessageText(m, "") + more|
    ensures StandardFraming(m) == ByTransferCoding
    ensures Parse(MessageText(m, "") + more, n) == Complete(|MessageText(m, "")|, MessageFields(m), "")
  {
    var head := MessageText(m, "");
    NoLength(m);
    assert "" + more == more && |"" + more| == |more|;
    RequestRecovered(m, head, "", more, n);
  }

  /** Contradicting Content-Length values are accepted: the last one counts. */
  lemma ConflictingLengthsAccepted(m: Message, body: string, more: string, n: nat)
    requires MessageOk(m) && !HasTransferEncoding(m.headers) && !AllSame(Lengths(m.headers))
    requires var values := Lengths(m.headers); |body| == values[|values| - 1] <= HTTP_MAX_BODY_SIZE
    requires |MessageText(m, "")| + |body| <= n <= |MessageText(m, "") + (body + more)|
    ensures StandardFraming(m) == Unrecoverable
    ensures Parse(MessageText(m, "") + (body + more), n)
         == Complete(|MessageText(m, "")| + |body|, MessageFields(m), body)
  {
    LengthOfMessage(m);
    RequestRecovered(m, MessageText(m, ""), body, more, n);
  }

  /** Any request line with one Transfer-Encoding line, such as chunked, is such a request. */
  lemma CodedRequest(word: string, path: string, version: string, name: string, coding: string)
    requires Token(word) && Token(path) && Plain(version) && Plain(coding)
    requires Token(name) && ':' !in name && LowerAll(name) == "transfer-encoding"
    ensures var m := Message(word, path, version, [Other(name, coding)]);
      MessageOk(m) && HasTransferEncoding(m.headers) && Lengths(m.headers) == []
  {
    var h := Other(name, coding);
    assert LowerAll(name)[0] == 't';
    assert [h][1..] == [] && h in [h];
  }

  /** And any with two Content-Length lines that say different things is one of the others. */
  lemma TwoLengthsRequest(word: string, path: string, version: string, a: Header, b: Header)
    requires Token(word) && Token(path) && Plain(version)
    requires HeaderOk(a) && HeaderOk(b) && a.Length? && b.Length? && DigitsValue(a.digits) != DigitsValue(b.digits)
    ensures var m := Message(word, path, version, [a, b]);
      MessageOk(m) && !HasTransferEncoding(m.headers) && !AllSame(Lengths(m.headers))
  {
    var values := [DigitsValue(a.digits), DigitsValue(b.digits)];
    assert [a, b][1..] == [b] && [b][1..] == [];
    assert Lengths([b]) == [DigitsValue(b.digits)] + Lengths([]);
    assert Lengths([a, b]) == [DigitsValue(a.digits)] + Lengths([b]) == values;
    assert values[0] in values && values[1] in values;
  }
}
