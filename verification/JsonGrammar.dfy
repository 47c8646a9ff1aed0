/**
 JSON texts as sections 2 to 7 of RFC 8259 define them, with every choice of whitespace
 and escapes.  `...Text(x, k)` is the text of x followed by k; characters stand for bytes.
 */
module JsonGrammar {
  import opened Ascii

  predicate IsWs(c: char) {
    c == ' ' || c == '\t' || c == '\n' || c == '\r'
  }

  predicate AllWs(s: string) {
    forall c | c in s :: IsWs(c)
  }

  predicate AllDigits(s: string) {
    forall c | c in s :: IsDigit(c)
  }

  // Section 7: strings

  datatype StrItem =
    | Plain(c: char)
    | Escape(c: char)
    | Unicode(h0: char, h1: char, h2: char, h3: char)

  predicate IsHex(c: char) {
    IsDigit(c) || 'a' <= c <= 'f' || 'A' <= c <= 'F'
  }

  predicate ItemOk(i: StrItem) {
    match i
    case Plain(c) => c >= ' ' && c != '"' && c != '\\'
    case Escape(c) => c in "\"\\/bfnrt"
    case Unicode(h0, h1, h2, h3) => IsHex(h0) && IsHex(h1) && IsHex(h2) && IsHex(h3)
  }

  predicate ItemsOk(items: seq<StrItem>) {
    forall i | i in items :: ItemOk(i)
  }

  function ItemText(i: StrItem, k: string): string {
    match i
    case Plain(c) => [c] + k
    case Escape(c) => ['\\', c] + k
    case Unicode(h0, h1, h2, h3) => ['\\', 'u', h0, h1, h2, h3] + k
  }

  function ItemsText(items: seq<StrItem>, k: string): string {
    if items == [] then k else ItemText(items[0], ItemsText(items[1..], k))
  }

  function StringText(items: seq<StrItem>, k: string): string {
    ['"'] + ItemsText(items, ['"'] + k)
  }

  // Section 6: numbers

  datatype Exponent = NoExponent | Exponent(mark: char, sign: string, digits: string)

  datatype Number = Number(minus: bool, whole: string, fraction: string, exponent: Exponent)

  predicate NumberOk(n: Number) {
    && n.whole != "" && AllDigits(n.whole) && (n.whole[0] == '0' ==> |n.whole| == 1)
    && AllDigits(n.fraction)
    && (n.exponent.Exponent? ==>
          && n.exponent.mark in "eE" && n.exponent.sign in ["", "+", "-"]
          && n.exponent.digits != "" && AllDigits(n.exponent.digits))
  }

  function ExponentText(e: Exponent, k: string): string {
    match e
    case NoExponent => k
    case Exponent(mark, sign, digits) => [mark] + (sign + (digits + k))
  }

  function NumberText(n: Number, k: string): string {
    (if n.minus then "-" else "") + (n.whole +
    ((if n.fraction == "" then "" else ['.'] + n.fraction) + ExponentText(n.exponent, k)))
  }

  // Sections 3 to 5: values, objects, arrays

  datatype Value =
    | True | False | Null
    | Num(number: Number)
    | Str(items: seq<StrItem>)
    | Arr(pad: string, elems: Elems)
    | Obj(pad: string, members: Members)

  datatype Elems =
    | NoElems
    | Elem(before: string, v: Value, after: string, tail: Elems)

  datatype Members =
    | NoMembers
    | Member(before: string, key: seq<StrItem>, beforeColon: string, afterColon: string,
             v: Value, after: string, tail: Members)

  predicate ValueOk(v: Value) {
    match v
    case True | False | Null => true
    case Num(n) => NumberOk(n)
    case Str(items) => ItemsOk(items)
    case Arr(pad, elems) => AllWs(pad) && ElemsOk(elems)
    case Obj(pad, members) => AllWs(pad) && MembersOk(members)
  }

  predicate ElemsOk(es: Elems) {
    match es
    case NoElems => true
    case Elem(before, v, after, tail) => AllWs(before) && AllWs(after) && ValueOk(v) && ElemsOk(tail)
  }

  predicate MembersOk(ms: Members) {
    match ms
    case NoMembers => true
    case Member(before, key, beforeColon, afterColon, v, after, tail) =>
      && AllWs(before) && ItemsOk(key) && AllWs(beforeColon) && AllWs(afterColon)
      && ValueOk(v) && AllWs(after) && MembersOk(tail)
  }

  function ValueText(v: Value, k: string): string
    decreases v, 0
  {
    match v
    case True => "true" + k
    case False => "false" + k
    case Null => "null" + k
    case Num(n) => NumberText(n, k)
    case Str(items) => StringText(items, k)
    case Arr(pad, elems) => ['['] + (pad + ElemsText(elems, [']'] + k))
    case Obj(pad, members) => ['{'] + (pad + MembersText(members, ['}'] + k))
  }

  function ElemsText(es: Elems, k: string): string {
    match es
    case NoElems => k
    case Elem(before, v, after, tail) =>
      before + ValueText(v, after + (if tail.NoElems? then k else [','] + ElemsText(tail, k)))
  }

  function MembersText(ms: Members, k: string): string {
    match ms
    case NoMembers => k
    case Member(before, key, beforeColon, afterColon, v, after, tail) =>
      FieldText(before, key, beforeColon, afterColon, v, after,
                if tail.NoMembers? then k else [','] + MembersText(tail, k))
  }

  function FieldText(before: string, key: seq<StrItem>, beforeColon: string, afterColon: string,
                     v: Value, after: string, k: string): string
    decreases v, 1
  {
    before + StringText(key, beforeColon + ([':'] + (afterColon + ValueText(v, after + k))))
  }

  // ---------------------------------------------------------------------------
  // The continuation is only appended
  // ---------------------------------------------------------------------------

  lemma {:induction false} ItemsTextAppends(items: seq<StrItem>, k: string)
    ensures ItemsText(items, k) == ItemsText(items, "") + k
  {
    if items != [] {
      ItemsTextAppends(items[1..], k);
    }
  }

  lemma StringTextAppends(items: seq<StrItem>, k: string)
    ensures StringText(items, k) == StringText(items, "") + k
  {
    ItemsTextAppends(items, ['"'] + k);
    ItemsTextAppends(items, ['"']);
    assert ['"'] + "" == ['"'];
  }

  lemma NumberTextAppends(n: Number, k: string)
    ensures NumberText(n, k) == NumberText(n, "") + k
  {
    assert ExponentText(n.exponent, k) == ExponentText(n.exponent, "") + k;
  }

  /** Text(v, k) is the text of v followed by k. */
  lemma {:induction false} ValueTextAppends(v: Value, k: string)
    ensures ValueText(v, k) == ValueText(v, "") + k
    decreases v, 0
  {
    match v
    case True | False | Null =>
    case Num(n) => NumberTextAppends(n, k);
    case Str(items) => StringTextAppends(items, k);
    case Arr(pad, elems) =>
      ElemsTextAppends(elems, [']'] + k);
      ElemsTextAppends(elems, [']'] + "");
      Regroup(['['], pad, ElemsText(elems, ""), [']'] + "", k);
    case Obj(pad, members) =>
      MembersTextAppends(members, ['}'] + k);
      MembersTextAppends(members, ['}'] + "");
      Regroup(['{'], pad, MembersText(members, ""), ['}'] + "", k);
  }

  lemma {:induction false} ElemsTextAppends(es: Elems, k: string)
    ensures ElemsText(es, k) == ElemsText(es, "") + k
    decreases es
  {
    match es
    case NoElems =>
    case Elem(before, v, after, tail) =>
      var rest := if tail.NoElems? then k else [','] + ElemsText(tail, k);
      var rest0 := if tail.NoElems? then "" else [','] + ElemsText(tail, "");
      ElemsTextAppends(tail, k);
      assert rest == rest0 + k;
      ValueTextAppends(v, after + rest);
      ValueTextAppends(v, after + rest0);
      var t := ValueText(v, "");
      Regroup(before, t, after, rest0, k);
      assert ElemsText(es, k) == before + (t + (after + rest));
      assert ElemsText(es, "") == before + (t + (after + rest0));
  }

  lemma Regroup(a: string, b: string, c: string, d: string, k: string)
    ensures a + (b + (c + (d + k))) == (a + (b + (c + d))) + k
  {
  }

  lemma Assoc(a: string, b: string, k: string)
    ensures (a + b) + k == a + (b + k)
  {
  }

  lemma Regroup3(a: string, b: string, c: string, k: string)
    ensures a + (b + (c + k)) == (a + (b + c)) + k
  {
  }

  lemma {:induction false} MembersTextAppends(ms: Members, k: string)
    ensures MembersText(ms, k) == MembersText(ms, "") + k
    decreases ms
  {
    match ms
    case NoMembers =>
    case Member(before, key, beforeColon, afterColon, v, after, tail) =>
      var rest0 := if tail.NoMembers? then "" else [','] + MembersText(tail, "");
      MembersTextAppends(tail, k);
      FieldTextAppends(before, key, beforeColon, afterColon, v, after, rest0, k);
      assert rest0 + k == if tail.NoMembers? then k else [','] + MembersText(tail, k);
  }

  lemma {:induction false} FieldTextAppends(before: string, key: seq<StrItem>, beforeColon: string, afterColon: string,
                                            v: Value, after: string, k0: string, k: string)
    ensures FieldText(before, key, beforeColon, afterColon, v, after, k0 + k)
         == FieldText(before, key, beforeColon, afterColon, v, after, k0) + k
    decreases v, 1
  {
    ValueTextAppends(v, after + (k0 + k));
    ValueTextAppends(v, after + k0);
    var t := ValueText(v, "");
    Regroup(afterColon, t, after, k0, k);
    var x0 := afterColon + (t + (after + k0));
    Regroup3(beforeColon, [':'], x0, k);
    var m0 := beforeColon + ([':'] + x0);
    StringTextAppends(key, m0 + k);
    StringTextAppends(key, m0);
    Regroup3(before, StringText(key, ""), m0, k);
  }

  predicate NumberChar(c: char) {
    IsDigit(c) || c in "+-.eE"
  }

  predicate NumberChars(s: string) {
    forall c | c in s :: NumberChar(c)
  }

  lemma JoinedNumberChars(s: string, t: string)
    requires NumberChars(s) && NumberChars(t)
    ensures NumberChars(s + t)
  {
  }

  lemma NumberHasNumberChars(n: Number)
    requires NumberOk(n)
    ensures NumberChars(NumberText(n, ""))
  {
    var e := ExponentText(n.exponent, "");
    if n.exponent.Exponent? {
      var x := n.exponent;
      assert x.digits + "" == x.digits;
      JoinedNumberChars(x.sign, x.digits);
      JoinedNumberChars([x.mark], x.sign + x.digits);
    }
    var f := if n.fraction == "" then "" else ['.'] + n.fraction;
    if n.fraction != "" { JoinedNumberChars(['.'], n.fraction); }
    JoinedNumberChars(f, e);
    JoinedNumberChars(n.whole, f + e);
    JoinedNumberChars(if n.minus then "-" else "", n.whole + (f + e));
  }
}
