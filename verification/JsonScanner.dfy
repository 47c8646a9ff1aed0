/**
 The scanner of memory/mem9/embed-service/json.c as functions on the text that is still to
 be read: each returns what is left after it, or None where the C code returns NULL.
 */
module JsonScanner {
  import opened Ascii
  import opened Wrappers
  import opened JsonGrammar

  function SkipWs(s: string): (r: string)
    ensures |r| <= |s|
  {
    if s != "" && IsWs(s[0]) then SkipWs(s[1..]) else s
  }

  function SkipDigits(s: string): (r: string)
    ensures |r| <= |s|
  {
    if s != "" && IsDigit(s[0]) then SkipDigits(s[1..]) else s
  }

  /** From inside a string to just past its closing quote. */
  function SkipString(s: string): (r: Option<string>)
    ensures r.Some? ==> |r.value| < |s|
  {
    if s == "" then None
    else if s[0] == '"' then Some(s[1..])
    else if s[0] == '\\' then (if |s| < 2 then None else SkipString(s[2..]))
    else SkipString(s[1..])
  }

  /** From inside a container to past the bracket that brings the depth to zero.  Only
      `open` and `close` are counted; strings are stepped over. */
  function SkipNested(s: string, depth: nat, open: char, close: char): (r: Option<string>)
    ensures r.Some? ==> |r.value| <= |s|
    decreases |s|
  {
    if depth == 0 then Some(s)
    else if s == "" then None
    else if s[0] == open then SkipNested(s[1..], depth + 1, open, close)
    else if s[0] == close then SkipNested(s[1..], depth - 1, open, close)
    else if s[0] == '"' then
      match SkipString(s[1..])
      case None => None
      case Some(t) => SkipNested(t, depth, open, close)
    else SkipNested(s[1..], depth, open, close)
  }

  function SkipFraction(s: string): (r: string)
    ensures |r| <= |s|
  {
    if s != "" && s[0] == '.' then SkipDigits(s[1..]) else s
  }

  function SkipExponent(s: string): (r: string)
    ensures |r| <= |s|
  {
    if s != "" && s[0] in "eE" then
      SkipDigits(if |s| > 1 && s[1] in "+-" then s[2..] else s[1..])
    else s
  }

  function SkipNumber(s: string): (r: string)
    requires s != ""
    ensures |r| <= |s|
  {
    SkipExponent(SkipFraction(SkipDigits(if s[0] == '-' then s[1..] else s)))
  }

  function SkipWord(s: string, word: string): (r: Option<string>)
    ensures r.Some? ==> |r.value| <= |s|
  {
    if word <= s then Some(s[|word|..]) else None
  }

  function SkipValue(s: string): (r: Option<string>)
    ensures r.Some? ==> |r.value| <= |s|
  {
    var t := SkipWs(s);
    if t == "" then None
    else if t[0] == '"' then SkipString(t[1..])
    else if t[0] == '{' then SkipNested(t[1..], 1, '{', '}')
    else if t[0] == '[' then SkipNested(t[1..], 1, '[', ']')
    else if t[0] == 't' then SkipWord(t, "true")
    else if t[0] == 'f' then SkipWord(t, "false")
    else if t[0] == 'n' then SkipWord(t, "null")
    else if t[0] == '-' || IsDigit(t[0]) then Some(SkipNumber(t))
    else None
  }

  // ---------------------------------------------------------------------------
  // parse_string
  // ---------------------------------------------------------------------------

  /** The byte an escape letter stands for; unknown letters stand for themselves. */
  function Escaped(c: char): char {
    match c
    case 'b' => '\U{0008}'
    case 'f' => '\U{000C}'
    case 'n' => '\n'
    case 'r' => '\r'
    case 't' => '\t'
    case _ => c
  }

  datatype Parsed = Parsed(content: string, rest: string)

  /** From inside a string: its unescaped content and what follows the closing quote.
      A \u escape skips four bytes unseen and yields '?'. */
  function Unescape(s: string): (r: Option<Parsed>)
    ensures r.Some? ==> |r.value.rest| < |s|
  {
    if s == "" then None
    else if s[0] == '"' then Some(Parsed("", s[1..]))
    else if s[0] != '\\' then Prepend(s[0], Unescape(s[1..]))
    else if |s| < 2 then None
    else if s[1] != 'u' then Prepend(Escaped(s[1]), Unescape(s[2..]))
    else if |s| < 6 then None
    else Prepend('?', Unescape(s[6..]))
  }

  function Prepend(c: char, r: Option<Parsed>): Option<Parsed> {
    match r
    case None => None
    case Some(p) => Some(Parsed([c] + p.content, p.rest))
  }

  function ParseString(s: string): (r: Option<Parsed>)
    ensures r.Some? ==> |r.value.rest| < |s|
  {
    if s == "" || s[0] != '"' then None else Unescape(s[1..])
  }

  // ---------------------------------------------------------------------------
  // Every well-formed value is skipped exactly
  // ---------------------------------------------------------------------------

  lemma {:induction false} WsSkipped(ws: string, k: string)
    requires AllWs(ws)
    ensures SkipWs(ws + k) == SkipWs(k)
  {
    if ws != "" {
      assert (ws + k)[1..] == ws[1..] + k;
      WsSkipped(ws[1..], k);
    } else {
      assert ws + k == k;
    }
  }

  lemma {:induction false} DigitsSkipped(ds: string, k: string)
    requires AllDigits(ds) && (k == "" || !IsDigit(k[0]))
    ensures SkipDigits(ds + k) == k
  {
    if ds != "" {
      assert (ds + k)[1..] == ds[1..] + k;
      DigitsSkipped(ds[1..], k);
    } else {
      assert ds + k == k;
    }
  }

  lemma {:induction false} StringSkipped(items: seq<StrItem>, k: string)
    requires ItemsOk(items)
    ensures SkipString(ItemsText(items, ['"'] + k)) == Some(k)
  {
    if items != [] {
      var rest := ItemsText(items[1..], ['"'] + k);
      assert ItemOk(items[0]);
      StringSkipped(items[1..], k);
      var s := ItemText(items[0], rest);
      match items[0] {
        case Plain(c) => assert s[1..] == rest;
        case Escape(c) => assert s[2..] == rest;
        case Unicode(h0, h1, h2, h3) => HexSkipped(h0, h1, h2, h3, rest);
      }
    }
  }

  lemma {:induction false} PlainStepsOver(t: string, k: string)
    requires forall c | c in t :: c != '"' && c != '\\'
    ensures SkipString(t + k) == SkipString(k)
  {
    if t != "" {
      assert t[0] in t;
      assert forall c | c in t[1..] :: c in t;
      assert (t + k)[1..] == t[1..] + k;
      PlainStepsOver(t[1..], k);
    } else {
      assert t + k == k;
    }
  }

  lemma HexSkipped(h0: char, h1: char, h2: char, h3: char, rest: string)
    requires IsHex(h0) && IsHex(h1) && IsHex(h2) && IsHex(h3)
    ensures SkipString(['\\', 'u', h0, h1, h2, h3] + rest) == SkipString(rest)
  {
    PlainStepsOver([h0, h1, h2, h3], rest);
    assert (['\\', 'u', h0, h1, h2, h3] + rest)[2..] == [h0, h1, h2, h3] + rest;
  }

  /** k cannot be read as part of a preceding number. */
  predicate EndsNumber(k: string) {
    k == "" || !(IsDigit(k[0]) || k[0] in ".eE")
  }

  lemma NumberSkipped(n: Number, k: string)
    requires NumberOk(n) && EndsNumber(k)
    ensures NumberText(n, k) != "" && (NumberText(n, k)[0] == '-' || IsDigit(NumberText(n, k)[0]))
    ensures SkipNumber(NumberText(n, k)) == k
  {
    var e := ExponentText(n.exponent, k);
    ExponentSkipped(n.exponent, k);
    var f := (if n.fraction == "" then "" else ['.'] + n.fraction) + e;
    assert SkipFraction(f) == e by {
      if n.fraction == "" {
        assert f == e;
      } else {
        assert f[1..] == n.fraction + e;
        DigitsSkipped(n.fraction, e);
      }
    }
    DigitsSkipped(n.whole, f);
    var s := NumberText(n, k);
    if n.minus {
      assert s[1..] == n.whole + f;
    } else {
      assert s == n.whole + f;
    }
  }

  lemma ExponentSkipped(e: Exponent, k: string)
    requires e.Exponent? ==> e.mark in "eE" && e.sign in ["", "+", "-"] && e.digits != "" && AllDigits(e.digits)
    requires EndsNumber(k)
    ensures SkipExponent(ExponentText(e, k)) == k
    ensures ExponentText(e, k) == "" || !(IsDigit(ExponentText(e, k)[0]) || ExponentText(e, k)[0] == '.')
  {
    if e.Exponent? {
      var s := ExponentText(e, k);
      assert s[1..] == e.sign + (e.digits + k);
      if e.sign != "" {
        assert s[2..] == e.digits + k;
      } else {
        assert s[1..] == e.digits + k;
        assert s[1] == e.digits[0];
      }
      DigitsSkipped(e.digits, k);
    }
  }

  // A text is transparent for a bracket kind when the depth counter comes out of it
  // unchanged: that is what makes counting one kind of bracket enough.

  ghost predicate Brackets(open: char, close: char) {
    (open == '{' && close == '}') || (open == '[' && close == ']')
  }

  lemma {:induction false} PlainTransparent(t: string, k: string, depth: nat, open: char, close: char)
    requires depth > 0
    requires forall c | c in t :: c != open && c != close && c != '"'
    ensures SkipNested(t + k, depth, open, close) == SkipNested(k, depth, open, close)
  {
    if t != "" {
      assert t[0] in t;
      assert forall c | c in t[1..] :: c in t;
      assert (t + k)[1..] == t[1..] + k;
      PlainTransparent(t[1..], k, depth, open, close);
    } else {
      assert t + k == k;
    }
  }

  lemma StringTransparent(items: seq<StrItem>, k: string, depth: nat, open: char, close: char)
    requires depth > 0 && Brackets(open, close) && ItemsOk(items)
    ensures SkipNested(StringText(items, k), depth, open, close) == SkipNested(k, depth, open, close)
  {
    StringSkipped(items, k);
    assert StringText(items, k)[1..] == ItemsText(items, ['"'] + k);
  }

  lemma NumberCharsTransparent(t: string, k: string, depth: nat, open: char, close: char)
    requires depth > 0 && Brackets(open, close) && NumberChars(t)
    ensures SkipNested(t + k, depth, open, close) == SkipNested(k, depth, open, close)
  {
    PlainTransparent(t, k, depth, open, close);
  }

  lemma NumberTransparent(n: Number, k: string, depth: nat, open: char, close: char)
    requires depth > 0 && Brackets(open, close) && NumberOk(n)
    ensures SkipNested(NumberText(n, k), depth, open, close) == SkipNested(k, depth, open, close)
  {
    NumberTextAppends(n, k);
    NumberHasNumberChars(n);
    NumberCharsTransparent(NumberText(n, ""), k, depth, open, close);
  }

  lemma {:induction false} ValueTransparent(v: Value, k: string, depth: nat, open: char, close: char)
    requires depth > 0 && Brackets(open, close) && ValueOk(v)
    ensures SkipNested(ValueText(v, k), depth, open, close) == SkipNested(k, depth, open, close)
    decreases v
  {
    match v
    case True => PlainTransparent("true", k, depth, open, close);
    case False => PlainTransparent("false", k, depth, open, close);
    case Null => PlainTransparent("null", k, depth, open, close);
    case Num(n) => NumberTransparent(n, k, depth, open, close);
    case Str(items) => StringTransparent(items, k, depth, open, close);
    case Arr(pad, elems) =>
      var body := ElemsText(elems, [']'] + k);
      var inside := if open == '[' then depth + 1 else depth;
      assert (['['] + (pad + body))[1..] == pad + body;
      PlainTransparent(pad, body, inside, open, close);
      ElemsTransparent(elems, [']'] + k, inside, open, close);
      assert ([']'] + k)[1..] == k;
    case Obj(pad, members) =>
      var body := MembersText(members, ['}'] + k);
      var inside := if open == '{' then depth + 1 else depth;
      assert (['{'] + (pad + body))[1..] == pad + body;
      PlainTransparent(pad, body, inside, open, close);
      MembersTransparent(members, ['}'] + k, inside, open, close);
      assert (['}'] + k)[1..] == k;
  }

  lemma {:induction false} ElemsTransparent(es: Elems, k: string, depth: nat, open: char, close: char)
    requires depth > 0 && Brackets(open, close) && ElemsOk(es)
    ensures SkipNested(ElemsText(es, k), depth, open, close) == SkipNested(k, depth, open, close)
    decreases es
  {
    match es
    case NoElems =>
    case Elem(before, v, after, tail) =>
      var rest := if tail.NoElems? then k else [','] + ElemsText(tail, k);
      PlainTransparent(before, ValueText(v, after + rest), depth, open, close);
      ValueTransparent(v, after + rest, depth, open, close);
      PlainTransparent(after, rest, depth, open, close);
      if tail.Elem? {
        ElemsTransparent(tail, k, depth, open, close);
        assert rest[1..] == ElemsText(tail, k);
      }
  }

  lemma {:induction false} MembersTransparent(ms: Members, k: string, depth: nat, open: char, close: char)
    requires depth > 0 && Brackets(open, close) && MembersOk(ms)
    ensures SkipNested(MembersText(ms, k), depth, open, close) == SkipNested(k, depth, open, close)
    decreases ms
  {
    match ms
    case NoMembers =>
    case Member(before, key, beforeColon, afterColon, v, after, tail) =>
      var rest := if tail.NoMembers? then k else [','] + MembersText(tail, k);
      var value := ValueText(v, after + rest);
      var colon := [':'] + (afterColon + value);
      PlainTransparent(before, StringText(key, beforeColon + colon), depth, open, close);
      StringTransparent(key, beforeColon + colon, depth, open, close);
      PlainTransparent(beforeColon, colon, depth, open, close);
      assert colon[1..] == afterColon + value;
      PlainTransparent(afterColon, value, depth, open, close);
      ValueTransparent(v, after + rest, depth, open, close);
      PlainTransparent(after, rest, depth, open, close);
      if tail.Member? {
        MembersTransparent(tail, k, depth, open, close);
        assert rest[1..] == MembersText(tail, k);
      }
  }

  /** The scanner stops exactly at the end of every well-formed value, whatever follows. */
  lemma SkipsExactly(ws: string, v: Value, k: string)
    requires AllWs(ws) && ValueOk(v) && (v.Num? ==> EndsNumber(k))
    ensures SkipValue(ws + (ValueText(v, "") + k)) == Some(k)
  {
    ValueTextAppends(v, k);
    WsSkipped(ws, ValueText(v, k));
    SkipsValueText(v, k);
  }

  lemma ArraySkipped(pad: string, elems: Elems, k: string)
    requires AllWs(pad) && ElemsOk(elems)
    ensures SkipNested(pad + ElemsText(elems, [']'] + k), 1, '[', ']') == Some(k)
  {
    PlainTransparent(pad, ElemsText(elems, [']'] + k), 1, '[', ']');
    ElemsTransparent(elems, [']'] + k, 1, '[', ']');
    assert ([']'] + k)[1..] == k;
  }

  lemma ObjectSkipped(pad: string, members: Members, k: string)
    requires AllWs(pad) && MembersOk(members)
    ensures SkipNested(pad + MembersText(members, ['}'] + k), 1, '{', '}') == Some(k)
  {
    PlainTransparent(pad, MembersText(members, ['}'] + k), 1, '{', '}');
    MembersTransparent(members, ['}'] + k, 1, '{', '}');
    assert (['}'] + k)[1..] == k;
  }

  lemma WordSkipped(word: string, k: string)
    requires word == "true" || word == "false" || word == "null"
    ensures SkipWs(word + k) == word + k && SkipValue(word + k) == Some(k)
  {
    assert (word + k)[|word|..] == k;
  }

  lemma SkipsValueText(v: Value, k: string)
    requires ValueOk(v) && (v.Num? ==> EndsNumber(k))
    ensures ValueText(v, k) != "" && !IsWs(ValueText(v, k)[0])
    ensures SkipValue(ValueText(v, k)) == Some(k)
  {
    var t := ValueText(v, k);
    match v
    case True => WordSkipped("true", k);
    case False => WordSkipped("false", k);
    case Null => WordSkipped("null", k);
    case Num(n) => NumberSkipped(n, k);
    case Str(items) =>
      StringSkipped(items, k);
      assert t[1..] == ItemsText(items, ['"'] + k);
    case Arr(pad, elems) =>
      ArraySkipped(pad, elems, k);
      assert t[1..] == pad + ElemsText(elems, [']'] + k);
    case Obj(pad, members) =>
      ObjectSkipped(pad, members, k);
      assert t[1..] == pad + MembersText(members, ['}'] + k);
  }

  // ---------------------------------------------------------------------------
  // Strings: what parse_string makes of them
  // ---------------------------------------------------------------------------

  /** The content of a string as this program reads it: \u escapes become '?'. */
  function Content(items: seq<StrItem>): string {
    if items == [] then ""
    else (match items[0] case Plain(c) => [c] case Escape(c) => [Escaped(c)] case Unicode(_, _, _, _) => "?")
         + Content(items[1..])
  }

  /** What one item stands for: itself, the character that section 7 of RFC 8259 gives to the
      escape, or '?' for four hex digits. */
  function Meant(i: StrItem): char {
    match i
    case Plain(c) => c
    case Unicode(_, _, _, _) => '?'
    case Escape(c) =>
      if c == 'b' then '\U{0008}'
      else if c == 'f' then '\U{000C}'
      else if c == 'n' then '\U{000A}'
      else if c == 'r' then '\U{000D}'
      else if c == 't' then '\U{0009}'
      else c
  }

  /** The content has one character for each item. */
  lemma {:induction false} ContentIs(items: seq<StrItem>)
    requires ItemsOk(items)
    ensures |Content(items)| == |items| && forall i | 0 <= i < |items| :: Content(items)[i] == Meant(items[i])
  {
    if items != [] {
      ContentIs(items[1..]);
      assert Content(items)[0] == Meant(items[0]);
      forall i | 0 < i < |items|
        ensures Content(items)[i] == Meant(items[i])
      {
        assert items[i] == items[1..][i - 1] && Content(items)[i] == Content(items[1..])[i - 1];
      }
    }
  }

  lemma {:induction false} Unescapes(items: seq<StrItem>, k: string)
    requires ItemsOk(items)
    ensures Unescape(ItemsText(items, ['"'] + k)) == Some(Parsed(Content(items), k))
  {
    if items != [] {
      var rest := ItemsText(items[1..], ['"'] + k);
      assert ItemOk(items[0]);
      Unescapes(items[1..], k);
      var s := ItemText(items[0], rest);
      match items[0] {
        case Plain(c) => assert s[1..] == rest;
        case Escape(c) => assert s[2..] == rest;
        case Unicode(h0, h1, h2, h3) => assert s[6..] == rest;
      }
    }
  }

  lemma ParsesStringText(items: seq<StrItem>, k: string)
    requires ItemsOk(items)
    ensures ParseString(StringText(items, k)) == Some(Parsed(Content(items), k))
  {
    Unescapes(items, k);
    assert StringText(items, k)[1..] == ItemsText(items, ['"'] + k);
  }

  /** The two-character-escape encoding: defined for every byte string. */
  function EscapeAll(t: string): string {
    if t == "" then ""
    else EscapeOne(t[0]) + EscapeAll(t[1..])
  }

  function EscapeOne(c: char): string {
    if c == '"' || c == '\\' then ['\\', c]
    else if c == '\U{0008}' then "\\b"
    else if c == '\U{000C}' then "\\f"
    else if c == '\n' then "\\n"
    else if c == '\r' then "\\r"
    else if c == '\t' then "\\t"
    else [c]
  }

  /** Round trip: parsing the encoding of any byte string gives it back. */
  lemma {:induction false} EscapeRoundTrip(t: string, k: string)
    ensures ParseString(['"'] + (EscapeAll(t) + (['"'] + k))) == Some(Parsed(t, k))
  {
    var s := ['"'] + (EscapeAll(t) + (['"'] + k));
    assert s[1..] == EscapeAll(t) + (['"'] + k);
    EscapeRoundTripInside(t, k);
  }

  lemma {:induction false} EscapeRoundTripInside(t: string, k: string)
    ensures Unescape(EscapeAll(t) + (['"'] + k)) == Some(Parsed(t, k))
  {
    if t == "" {
      assert EscapeAll(t) + (['"'] + k) == ['"'] + k;
      assert (['"'] + k)[1..] == k;
    } else {
      var rest := EscapeAll(t[1..]) + (['"'] + k);
      EscapeRoundTripInside(t[1..], k);
      EscapeOneRead(t[0], rest);
      Assoc(EscapeOne(t[0]), EscapeAll(t[1..]), ['"'] + k);
      assert [t[0]] + t[1..] == t;
    }
  }

  lemma PlainRead(c: char, rest: string)
    requires c != '"' && c != '\\'
    ensures Unescape([c] + rest) == Prepend(c, Unescape(rest))
  {
    assert ([c] + rest)[1..] == rest;
  }

  lemma EscapeRead(x: char, rest: string)
    requires x != 'u'
    ensures Unescape(['\\', x] + rest) == Prepend(Escaped(x), Unescape(rest))
  {
    assert (['\\', x] + rest)[2..] == rest;
  }

  /** An encoded byte is itself, or a backslash and a letter that stands for it. */
  lemma EscapeOneShape(c: char)
    ensures if |EscapeOne(c)| == 2 then
        EscapeOne(c) == ['\\', EscapeOne(c)[1]] && EscapeOne(c)[1] != 'u' && Escaped(EscapeOne(c)[1]) == c
      else EscapeOne(c) == [c] && c != '"' && c != '\\'
  {
  }

  lemma EscapeOneRead(c: char, rest: string)
    ensures Unescape(EscapeOne(c) + rest) == Prepend(c, Unescape(rest))
  {
    var e := EscapeOne(c);
    EscapeOneShape(c);
    if |e| == 2 {
      EscapeRead(e[1], rest);
    } else {
      PlainRead(c, rest);
    }
  }

  // Where parse_string and skip_value part: after \u the first jumps over four bytes that
  // the second still reads.

  /** In a tail too short for four hex digits: every quote stands behind one backslash. */
  predicate Unclosed(t: string) {
    forall i | 0 <= i < |t| && t[i] == '"' :: i > 0 && t[i - 1] == '\\' && (i > 1 ==> t[i - 2] != '\\')
  }

  lemma UnclosedTail(t: string)
    requires |t| < 4
    ensures Unclosed(t) <==> SkipString(t).None?
  {
    if t != "" {
      TailOfTwo(t[1..]);
      assert |t| >= 2 ==> t[2..] == t[1..][1..];
    }
  }

  lemma TailOfTwo(t: string)
    requires |t| < 3
    ensures SkipString(t).None? <==> (|t| > 0 ==> t[0] != '"') && (|t| > 1 && t[1] == '"' ==> t[0] == '\\')
  {
  }

  /** skip_value stands at the start of s, parse_string `ahead` bytes further on; do they
      come to the same end? */
  predicate Level(s: string, ahead: nat)
    requires ahead <= |s|
    decreases |s|, 1
  {
    if s == "" then true
    else if s[0] == '"' then ahead == 0
    else if s[0] != '\\' then Level(s[1..], if ahead == 0 then 0 else ahead - 1)
    else if |s| < 2 then true
    else if ahead == 1 then Straddled(s[1..])
    else if ahead >= 2 then Level(s[2..], ahead - 2)
    else if s[1] != 'u' then Level(s[2..], 0)
    else if |s| < 6 then Unclosed(s[2..])
    else Level(s[2..], 4)
  }

  /** A backslash among the four bytes has taken skip_value one byte past parse_string, which
      stands at the start of u. */
  predicate Straddled(u: string)
    requires u != ""
    decreases |u|, 0
  {
    if u[0] == '"' then false
    else if u[0] != '\\' then Level(u[1..], 0)
    else if |u| < 2 then true
    else if u[1] == 'u' then (if |u| < 6 then Unclosed(u[2..]) else Level(u[2..], 4))
    else if u[1] == '"' then false
    else if u[1] != '\\' then Level(u[2..], 0)
    else |u| < 3 || Straddled(u[2..])
  }

  predicate SameEnd(p: Option<Parsed>, r: Option<string>) {
    match p
    case None => r.None?
    case Some(x) => r == Some(x.rest)
  }

  /** What Level and Straddled are to say. */
  predicate LevelRight(s: string, ahead: nat)
    requires ahead <= |s|
  {
    Level(s, ahead) <==> SameEnd(Unescape(s[ahead..]), SkipString(s))
  }

  predicate StraddledRight(u: string)
    requires u != ""
  {
    Straddled(u) <==> SameEnd(Unescape(u), SkipString(u[1..]))
  }

  // The steps, one branch each

  lemma LevelAtQuote(s: string, ahead: nat)
    requires s != "" && s[0] == '"' && ahead <= |s|
    ensures LevelRight(s, ahead)
  {
    assert ahead == 0 ==> s[ahead..] == s;
  }

  lemma LevelPlain(s: string, ahead: nat)
    requires s != "" && s[0] != '"' && s[0] != '\\' && ahead <= |s|
    requires LevelRight(s[1..], if ahead == 0 then 0 else ahead - 1)
    ensures LevelRight(s, ahead)
  {
    if ahead == 0 {
      assert s[ahead..] == s && s[1..][0..] == s[1..];
    } else {
      assert s[1..][ahead - 1..] == s[ahead..];
    }
  }

  lemma LevelBehind(s: string, ahead: nat)
    requires |s| >= 2 && s[0] == '\\' && 2 <= ahead <= |s|
    requires LevelRight(s[2..], ahead - 2)
    ensures LevelRight(s, ahead)
  {
    assert s[2..][ahead - 2..] == s[ahead..];
  }

  lemma LevelStraddles(s: string)
    requires |s| >= 2 && s[0] == '\\' && StraddledRight(s[1..])
    ensures LevelRight(s, 1)
  {
    assert s[1..][1..] == s[2..];
  }

  lemma LevelEscape(s: string)
    requires |s| >= 2 && s[0] == '\\' && s[1] != 'u' && LevelRight(s[2..], 0)
    ensures LevelRight(s, 0)
  {
    assert s[0..] == s && s[2..][0..] == s[2..];
  }

  lemma LevelUnicode(s: string)
    requires |s| >= 2 && s[0] == '\\' && s[1] == 'u' && (|s| >= 6 ==> LevelRight(s[2..], 4))
    ensures LevelRight(s, 0)
  {
    assert s[0..] == s;
    if |s| >= 6 {
      assert s[2..][4..] == s[6..];
    } else {
      UnclosedTail(s[2..]);
    }
  }

  lemma LevelAtEnd(s: string, ahead: nat)
    requires ahead <= |s| && (s == "" || (|s| == 1 && s[0] == '\\'))
    ensures LevelRight(s, ahead)
  {
    assert s[0..] == s && s[|s|..] == "";
  }

  lemma {:induction false} LevelIff(s: string, ahead: nat)
    requires ahead <= |s|
    ensures LevelRight(s, ahead)
    decreases |s|, 1
  {
    if s == "" || (|s| == 1 && s[0] == '\\') {
      LevelAtEnd(s, ahead);
    } else if s[0] == '"' {
      LevelAtQuote(s, ahead);
    } else if s[0] != '\\' {
      LevelIff(s[1..], if ahead == 0 then 0 else ahead - 1);
      LevelPlain(s, ahead);
    } else if ahead >= 2 {
      LevelIff(s[2..], ahead - 2);
      LevelBehind(s, ahead);
    } else if ahead == 1 {
      StraddledIff(s[1..]);
      LevelStraddles(s);
    } else if s[1] != 'u' {
      LevelIff(s[2..], 0);
      LevelEscape(s);
    } else {
      if |s| >= 6 {
        LevelIff(s[2..], 4);
      }
      LevelUnicode(s);
    }
  }

  lemma StraddledPlain(u: string)
    requires u != "" && u[0] != '"' && u[0] != '\\' && LevelRight(u[1..], 0)
    ensures StraddledRight(u)
  {
    assert u[1..][0..] == u[1..];
  }

  lemma StraddledUnicode(u: string)
    requires |u| >= 2 && u[0] == '\\' && u[1] == 'u' && (|u| >= 6 ==> LevelRight(u[2..], 4))
    ensures StraddledRight(u)
  {
    assert u[1..][1..] == u[2..];
    if |u| >= 6 {
      assert u[2..][4..] == u[6..];
    } else {
      UnclosedTail(u[2..]);
    }
  }

  lemma StraddledAgain(u: string)
    requires |u| >= 2 && u[0] == '\\' && u[1] == '\\' && (|u| >= 3 ==> StraddledRight(u[2..]))
    ensures StraddledRight(u)
  {
    if |u| >= 3 {
      assert u[1..][2..] == u[2..][1..];
    } else {
      assert u[2..] == "";
    }
  }

  lemma StraddledEscape(u: string)
    requires |u| >= 2 && u[0] == '\\' && u[1] != 'u' && u[1] != '"' && u[1] != '\\' && LevelRight(u[2..], 0)
    ensures StraddledRight(u)
  {
    assert u[1..][1..] == u[2..] && u[2..][0..] == u[2..];
  }

  lemma StraddledAtQuote(u: string)
    requires u != "" && (u[0] == '"' || (u[0] == '\\' && (|u| == 1 || u[1] == '"')))
    ensures StraddledRight(u)
  {
    assert |u| >= 2 ==> u[1..][1..] == u[2..];
  }

  lemma {:induction false} StraddledIff(u: string)
    requires u != ""
    ensures StraddledRight(u)
    decreases |u|, 0
  {
    if u[0] == '"' || (u[0] == '\\' && (|u| == 1 || u[1] == '"')) {
      StraddledAtQuote(u);
    } else if u[0] != '\\' {
      LevelIff(u[1..], 0);
      StraddledPlain(u);
    } else if u[1] == 'u' {
      if |u| >= 6 {
        LevelIff(u[2..], 4);
      }
      StraddledUnicode(u);
    } else if u[1] == '\\' {
      if |u| >= 3 {
        StraddledIff(u[2..]);
      }
      StraddledAgain(u);
    } else {
      LevelIff(u[2..], 0);
      StraddledEscape(u);
    }
  }

  /** The reader that measures and fills and the one that skips come to the same end of a
      string, or both to none, if and only if the string is level. */
  lemma ReadersAgreeIff(s: string)
    ensures Level(s, 0) <==> SameEnd(Unescape(s), SkipString(s))
  {
    LevelIff(s, 0);
    assert s[0..] == s;
  }

  lemma {:induction false} PlainUnicodeIsLevel(s: string)
    requires PlainUnicode(s)
    ensures Level(s, 0)
    decreases |s|
  {
    if s == "" || s[0] == '"' {
    } else if s[0] != '\\' {
      PlainUnicodeIsLevel(s[1..]);
    } else if |s| < 2 {
    } else if s[1] != 'u' {
      PlainUnicodeIsLevel(s[2..]);
    } else {
      PlainUnicodeIsLevel(s[6..]);
      assert s[2..6] == [s[2], s[3], s[4], s[5]];
      assert s[2] in s[2..6] && s[3] in s[2..6] && s[4] in s[2..6] && s[5] in s[2..6];
      assert s[2..][1..] == s[3..] && s[3..][1..] == s[4..] && s[4..][1..] == s[5..] && s[5..][1..] == s[6..];
      assert Level(s[5..], 1);
      assert Level(s[4..], 2);
      assert Level(s[3..], 3);
      assert Level(s[2..], 4);
    }
  }

  /** So they agree on every string whose \u escapes carry four characters that are neither
      quotes nor backslashes, such as hexadecimal digits. */
  lemma ReadersAgree(s: string)
    requires PlainUnicode(s)
    ensures Unescape(s).Some? <==> SkipString(s).Some?
    ensures Unescape(s).Some? ==> Unescape(s).value.rest == SkipString(s).value
  {
    PlainUnicodeIsLevel(s);
    ReadersAgreeIff(s);
  }

  predicate PlainUnicode(s: string)
    decreases |s|
  {
    if s == "" || s[0] == '"' then true
    else if s[0] != '\\' then PlainUnicode(s[1..])
    else if |s| < 2 then true
    else if s[1] != 'u' then PlainUnicode(s[2..])
    else |s| >= 6 && (forall c | c in s[2..6] :: c != '"' && c != '\\') && PlainUnicode(s[6..])
  }

  /** Otherwise they differ: after \u the filling reader takes the closing quote for a digit. */
  lemma UnicodeSwallowsQuote()
    ensures var s := "\\u\"ab\"";
      SkipString(s) == Some("ab\"") && Unescape(s).None?
  {
    var s := "\\u\"ab\"";
    assert s[2..] == "\"ab\"";
    assert s[2..][1..] == "ab\"";
    assert s[6..] == "";
  }
}
