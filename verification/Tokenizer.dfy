/**
 The tokenizer of the embedding service (memory/mem9/embed-service/embedder.c).  A char is
 one byte; the functions follow the text that is still to be read.
 */
module Tokenizer {
  import opened Ascii
  import opened Sequences

  const MAX_TOKENS := 4096
  const MAX_TOKEN_LEN := 256

  /** Letters, digits and the underscore. */
  predicate IsWordChar(c: char) {
    IsUpper(c) || IsLower(c) || IsDigit(c) || c == '_'
  }

  /** The operators of two characters. */
  predicate IsOperator(c: char, next: char) {
    || (c == '=' && next == '=')
    || (c == '!' && next == '=')
    || (c == '<' && next == '=')
    || (c == '>' && next == '=')
    || (c == '&' && next == '&')
    || (c == '|' && next == '|')
    || (c == '-' && next == '>')
    || (c == '=' && next == '>')
    || (c == ':' && next == ':')
    || (c == '+' && next == '+')
    || (c == '-' && next == '-')
  }

  function WordLength(s: string): (n: nat)
    ensures n <= |s|
  {
    if s == "" || !IsWordChar(s[0]) then 0 else 1 + WordLength(s[1..])
  }

  /** How long the token at the start of s is. */
  function TokenLength(s: string): (n: nat)
    requires s != ""
    ensures 1 <= n <= |s|
  {
    if IsWordChar(s[0]) then WordLength(s)
    else if |s| >= 2 && IsOperator(s[0], s[1]) then 2
    else 1
  }

  /** All tokens of a text, without the limits of the token list. */
  function AllTokens(s: string): seq<string>
    decreases |s|
  {
    if s == "" then []
    else if IsSpace(s[0]) then AllTokens(s[1..])
    else [s[..TokenLength(s)]] + AllTokens(s[TokenLength(s)..])
  }

  /** token_t: where a token starts and how long it is. */
  datatype Token = Token(start: nat, len: nat)

  /** What the tokenizer appends from position i on when it has room for `room` tokens. */
  function Tokens(text: string, i: nat, room: nat): (r: seq<Token>)
    requires i <= |text|
    ensures |r| <= room
    decreases |text| - i
  {
    if i == |text| || room == 0 then []
    else if IsSpace(text[i]) then Tokens(text, i + 1, room)
    else
      var len := TokenLength(text[i..]);
      if len <= MAX_TOKEN_LEN then [Token(i, len)] + Tokens(text, i + len, room - 1)
      else Tokens(text, i + len, room)
  }

  function Tokenized(text: string): seq<Token> {
    Tokens(text, 0, MAX_TOKENS)
  }

  // ---------------------------------------------------------------------------
  // The loops
  // ---------------------------------------------------------------------------

  method SkipSpace(text: string, start: nat) returns (i: nat)
    requires start <= |text|
    ensures start <= i <= |text| && (i < |text| ==> !IsSpace(text[i]))
    ensures forall room :: Tokens(text, i, room) == Tokens(text, start, room)
  {
    i := start;
    while i < |text| && IsSpace(text[i])
      invariant start <= i <= |text|
      invariant forall room :: Tokens(text, i, room) == Tokens(text, start, room)
    {
      forall room
        ensures Tokens(text, i, room) == Tokens(text, i + 1, room)
      {
      }
      i := i + 1;
    }
  }

  method FindTokenEnd(text: string, start: nat) returns (i: nat)
    requires start < |text|
    ensures i == start + TokenLength(text[start..])
  {
    i := start;
    ghost var s := text[start..];
    if IsWordChar(text[i]) {
      while i < |text| && IsWordChar(text[i])
        invariant start <= i <= |text| && WordLength(s) == i - start + WordLength(text[i..])
      {
        assert text[i..][1..] == text[i + 1..];
        i := i + 1;
      }
    } else {
      var c := text[i];
      i := i + 1;
      if i < |text| {
        var next := text[i];
        if IsOperator(c, next) {
          i := i + 1;
        }
      }
    }
  }

  method Tokenize(text: string) returns (tokens: seq<Token>)
    ensures tokens == Tokenized(text)
  {
    tokens := [];
    var i := 0;
    while i < |text| && |tokens| < MAX_TOKENS
      invariant 0 <= i <= |text| && |tokens| <= MAX_TOKENS
      invariant Tokenized(text) == tokens + Tokens(text, i, MAX_TOKENS - |tokens|)
      decreases |text| - i
    {
      i := SkipSpace(text, i);
      if i >= |text| {
        break;
      }
      var start := i;
      i := FindTokenEnd(text, start);
      var len := i - start;
      if len > 0 && len <= MAX_TOKEN_LEN {
        AppendOne(tokens, Token(start, len), Tokens(text, i, MAX_TOKENS - |tokens| - 1));
        tokens := tokens + [Token(start, len)];
      }
    }
  }

  // ---------------------------------------------------------------------------
  // Maximal munch
  // ---------------------------------------------------------------------------

  /** What a token can be. */
  predicate IsToken(t: string) {
    || (t != "" && forall c | c in t :: IsWordChar(c))
    || (|t| == 1 && !IsSpace(t[0]) && !IsWordChar(t[0]))
    || (|t| == 2 && IsOperator(t[0], t[1]))
  }

  const OPERATORS := {"==", "!=", "<=", ">=", "&&", "||", "->", "=>", "::", "++", "--"}

  /** Written out: words of letters, digits and underscores, the eleven operators, and any
      other single byte but white space. */
  lemma TokenKinds(t: string)
    ensures IsToken(t) <==>
      || (t != "" && forall c | c in t :: c in UPPER || c in LOWER || c in DIGITS || c == '_')
      || t in OPERATORS
      || (|t| == 1 && t[0] !in " \t\n\r\U{000B}\U{000C}")
  {
    forall c | c in t
      ensures IsWordChar(c) <==> c in UPPER || c in LOWER || c in DIGITS || c == '_'
    {
      UpperLetters(c);
      LowerLetters(c);
      DecimalDigits(c);
    }
    if |t| == 1 {
      Blanks(t[0]);
      assert t[0] in t;
      assert forall c | c in t :: c == t[0];
    }
    OperatorsListed(t);
  }

  lemma OperatorsListed(t: string)
    ensures t in OPERATORS <==> |t| == 2 && IsOperator(t[0], t[1])
  {
    if |t| == 2 {
      assert t == [t[0], t[1]];
    }
  }

  lemma {:induction false} WordLengthIsRun(s: string)
    ensures forall i | 0 <= i < WordLength(s) :: IsWordChar(s[i])
    ensures WordLength(s) < |s| ==> !IsWordChar(s[WordLength(s)])
  {
    if s != "" && IsWordChar(s[0]) {
      WordLengthIsRun(s[1..]);
      var n := WordLength(s);
      assert n < |s| ==> s[n] == s[1..][n - 1];
      forall i | 0 <= i < n
        ensures IsWordChar(s[i])
      {
        if i > 0 {
          assert s[i] == s[1..][i - 1];
        }
      }
    }
  }

  /** The token at the start of a text is its longest prefix that is a token. */
  lemma TokenIsLongest(s: string, n: nat)
    requires s != "" && !IsSpace(s[0]) && n <= |s|
    ensures IsToken(s[..TokenLength(s)])
    ensures IsToken(s[..n]) ==> n <= TokenLength(s)
  {
    var k := TokenLength(s);
    WordLengthIsRun(s);
    assert s[..n] != "" ==> s[..n][0] == s[0];
    if n > k && IsWordChar(s[0]) {
      assert s[..n][k] == s[k] && s[k] in s[..n];
    } else if n > k && n > 1 {
      assert s[..n][0] in s[..n];
    }
  }

  function TextOf(text: string, t: Token): string
    requires t.start + t.len <= |text|
  {
    text[t.start..t.start + t.len]
  }

  /** A token that no longer token at its place contains. */
  ghost predicate LongestAt(text: string, t: Token) {
    && t.start + t.len <= |text| && IsToken(TextOf(text, t))
    && forall n: nat | t.len < n <= |text| - t.start :: !IsToken(TextOf(text, Token(t.start, n)))
  }

  /** The tokens lie in the text one behind the other, none is empty or longer than the
      limit, and each is the longest token at its place. */
  ghost predicate Munched(text: string, i: nat, tokens: seq<Token>)
    requires i <= |text|
    decreases |tokens|
  {
    tokens == [] ||
    (var t := tokens[0];
     && i <= t.start && 1 <= t.len <= MAX_TOKEN_LEN && LongestAt(text, t)
     && Munched(text, t.start + t.len, tokens[1..]))
  }

  lemma LongestThere(text: string, i: nat)
    requires i < |text| && !IsSpace(text[i])
    ensures LongestAt(text, Token(i, TokenLength(text[i..])))
  {
    var s := text[i..];
    var len := TokenLength(s);
    TokenIsLongest(s, len);
    forall n: nat | len < n <= |text| - i
      ensures !IsToken(TextOf(text, Token(i, n)))
    {
      TokenIsLongest(s, n);
      assert s[..n] == text[i..i + n];
    }
    assert s[..len] == text[i..i + len];
  }

  lemma MunchedFurther(text: string, i: nat, j: nat, tokens: seq<Token>)
    requires i <= j <= |text| && Munched(text, j, tokens)
    ensures Munched(text, i, tokens)
  {
  }

  lemma {:induction false} TokensMunched(text: string, i: nat, room: nat)
    requires i <= |text|
    ensures Munched(text, i, Tokens(text, i, room))
    decreases |text| - i
  {
    if i < |text| && room > 0 {
      if IsSpace(text[i]) {
        TokensMunched(text, i + 1, room);
        MunchedFurther(text, i, i + 1, Tokens(text, i + 1, room));
      } else {
        var len := TokenLength(text[i..]);
        LongestThere(text, i);
        if len <= MAX_TOKEN_LEN {
          TokensMunched(text, i + len, room - 1);
        } else {
          TokensMunched(text, i + len, room);
          MunchedFurther(text, i, i + len, Tokens(text, i + len, room));
        }
      }
    }
  }

  // ---------------------------------------------------------------------------
  // What the limits drop
  // ---------------------------------------------------------------------------

  /** The texts of the tokens from position i on. */
  function Texts(text: string, i: nat, room: nat): seq<string>
    requires i <= |text|
  {
    Limited(AllTokens(text[i..]), room)
  }

  /** The first `room` tokens that are not too long. */
  function Limited(tokens: seq<string>, room: nat): (r: seq<string>)
    ensures |r| <= room
  {
    if tokens == [] || room == 0 then []
    else if |tokens[0]| <= 256 then [tokens[0]] + Limited(tokens[1..], room - 1)
    else Limited(tokens[1..], room)
  }

  ghost predicate Reads(text: string, tokens: seq<Token>, texts: seq<string>) {
    && |tokens| == |texts|
    && forall k | 0 <= k < |tokens| :: tokens[k].start + tokens[k].len <= |text| && TextOf(text, tokens[k]) == texts[k]
  }

  /** The token list holds the first tokens of the text that are not too long, and no
      other token is lost. */
  lemma {:induction false} TokensAreLimited(text: string, i: nat, room: nat)
    requires i <= |text|
    ensures Reads(text, Tokens(text, i, room), Texts(text, i, room))
    decreases |text| - i
  {
    var s := text[i..];
    if i < |text| && room > 0 {
      if IsSpace(text[i]) {
        assert s[1..] == text[i + 1..];
        TokensAreLimited(text, i + 1, room);
      } else {
        var len := TokenLength(s);
        assert s[len..] == text[i + len..] && s[..len] == text[i..i + len];
        var all := AllTokens(s);
        assert all[1..] == AllTokens(s[len..]);
        TokensAreLimited(text, i + len, if len <= MAX_TOKEN_LEN then room - 1 else room);
      }
    }
  }

  /** The token list of a text. */
  lemma TokenListIs(text: string)
    ensures Reads(text, Tokenized(text), Limited(AllTokens(text), 4096))
  {
    assert text[0..] == text;
    TokensAreLimited(text, 0, MAX_TOKENS);
  }

  function Joined(tokens: seq<string>): string {
    if tokens == [] then "" else tokens[0] + Joined(tokens[1..])
  }

  function WithoutSpace(s: string): string {
    if s == "" then "" else (if IsSpace(s[0]) then "" else [s[0]]) + WithoutSpace(s[1..])
  }

  lemma {:induction false} WithoutSpaceJoin(a: string, b: string)
    requires forall c | c in a :: !IsSpace(c)
    ensures WithoutSpace(a + b) == a + WithoutSpace(b)
    decreases |a|
  {
    if a == "" {
      assert a + b == b;
    } else {
      assert a[0] in a && (a + b)[1..] == a[1..] + b;
      assert forall c | c in a[1..] :: c in a;
      WithoutSpaceJoin(a[1..], b);
    }
  }

  lemma TokenHasNoSpace(t: string)
    requires IsToken(t)
    ensures forall c | c in t :: !IsSpace(c)
  {
  }

  /** The tokens make up the whole text but its white space. */
  lemma {:induction false} TokensCoverText(s: string)
    ensures Joined(AllTokens(s)) == WithoutSpace(s)
    decreases |s|
  {
    if s != "" {
      if IsSpace(s[0]) {
        TokensCoverText(s[1..]);
      } else {
        var n := TokenLength(s);
        TokenIsLongest(s, n);
        TokenHasNoSpace(s[..n]);
        TokensCoverText(s[n..]);
        assert s == s[..n] + s[n..];
        WithoutSpaceJoin(s[..n], s[n..]);
        assert AllTokens(s)[1..] == AllTokens(s[n..]);
      }
    }
  }

  lemma {:induction false} NothingLimited(tokens: seq<string>, room: nat)
    requires forall t | t in tokens :: |t| <= MAX_TOKEN_LEN
    requires |Limited(tokens, room)| < room
    ensures Limited(tokens, room) == tokens
  {
    if tokens != [] {
      assert tokens[0] in tokens;
      NothingLimited(tokens[1..], room - 1);
    }
  }

  /** Without a run of more than 256 bytes and with fewer than 4096 tokens, the tokens of
      the list, put together, are the text without its white space. */
  lemma TokensKeepText(text: string)
    requires forall t | t in AllTokens(text) :: |t| <= MAX_TOKEN_LEN
    requires |Tokenized(text)| < MAX_TOKENS
    ensures Reads(text, Tokenized(text), AllTokens(text)) && Joined(AllTokens(text)) == WithoutSpace(text)
  {
    assert text[0..] == text;
    TokensAreLimited(text, 0, MAX_TOKENS);
    NothingLimited(AllTokens(text), MAX_TOKENS);
    TokensCoverText(text);
  }

  // ---------------------------------------------------------------------------
  // Tokenizing the tokens again
  // ---------------------------------------------------------------------------

  function Spaced(tokens: seq<string>): string {
    if tokens == [] then ""
    else if |tokens| == 1 then tokens[0]
    else tokens[0] + ([' '] + Spaced(tokens[1..]))
  }

  lemma {:induction false} WordLengthOfToken(t: string, rest: string)
    requires forall c | c in t :: IsWordChar(c)
    requires rest == "" || !IsWordChar(rest[0])
    ensures WordLength(t + rest) == |t|
  {
    if t == "" {
      assert t + rest == rest;
    } else {
      assert t[0] in t && (t + rest)[1..] == t[1..] + rest;
      assert forall c | c in t[1..] :: c in t;
      WordLengthOfToken(t[1..], rest);
    }
  }

  /** A token is read back whole when a space or nothing follows. */
  lemma TokenReadBack(t: string, rest: string)
    requires IsToken(t) && (rest == "" || rest[0] == ' ')
    ensures AllTokens(t + rest) == [t] + AllTokens(rest)
  {
    var s := t + rest;
    TokenHasNoSpace(t);
    assert s[0] == t[0] && t[0] in t;
    if IsWordChar(t[0]) {
      WordLengthOfToken(t, rest);
    }
    assert s[..|t|] == t && s[|t|..] == rest;
  }

  lemma {:induction false} SpacedReadBack(tokens: seq<string>)
    requires forall t | t in tokens :: IsToken(t)
    ensures AllTokens(Spaced(tokens)) == tokens
  {
    if |tokens| == 1 {
      assert tokens[0] in tokens && tokens[0] + "" == tokens[0];
      TokenReadBack(tokens[0], "");
    } else if tokens != [] {
      var rest := [' '] + Spaced(tokens[1..]);
      assert tokens[0] in tokens;
      assert forall t | t in tokens[1..] :: t in tokens;
      TokenReadBack(tokens[0], rest);
      assert rest[1..] == Spaced(tokens[1..]);
      SpacedReadBack(tokens[1..]);
    }
  }

  lemma {:induction false} AllTokensAreTokens(s: string)
    ensures forall t | t in AllTokens(s) :: IsToken(t)
    decreases |s|
  {
    if s != "" {
      if IsSpace(s[0]) {
        AllTokensAreTokens(s[1..]);
      } else {
        TokenIsLongest(s, 1);
        AllTokensAreTokens(s[TokenLength(s)..]);
      }
    }
  }

  lemma {:induction false} LimitedMembers(tokens: seq<string>, room: nat)
    ensures forall t | t in Limited(tokens, room) :: t in tokens && |t| <= MAX_TOKEN_LEN
  {
    if tokens != [] && room > 0 {
      LimitedMembers(tokens[1..], room - 1);
      LimitedMembers(tokens[1..], room);
    }
  }

  lemma {:induction false} LimitedTwice(tokens: seq<string>, room: nat)
    requires |tokens| <= room && forall t | t in tokens :: |t| <= MAX_TOKEN_LEN
    ensures Limited(tokens, room) == tokens
  {
    if tokens != [] {
      assert tokens[0] in tokens;
      LimitedTwice(tokens[1..], room - 1);
    }
  }

  /** Tokenizing the tokens of any text, joined by spaces, gives the same list again. */
  lemma RetokenizeSame(text: string)
    ensures var tokens := Texts(text, 0, MAX_TOKENS);
      Texts(Spaced(tokens), 0, MAX_TOKENS) == tokens
  {
    var tokens := Texts(text, 0, MAX_TOKENS);
    var again := Spaced(tokens);
    AllTokensAreTokens(text[0..]);
    LimitedMembers(AllTokens(text[0..]), MAX_TOKENS);
    SpacedReadBack(tokens);
    assert again[0..] == again;
    LimitedTwice(tokens, MAX_TOKENS);
  }

  // ---------------------------------------------------------------------------
  // Case folding
  // ---------------------------------------------------------------------------

  lemma LowerKeepsClasses(c: char, d: char)
    ensures IsSpace(Lower(c)) <==> IsSpace(c)
    ensures IsWordChar(Lower(c)) <==> IsWordChar(c)
    ensures IsOperator(Lower(c), Lower(d)) <==> IsOperator(c, d)
    ensures Lower(Lower(c)) == Lower(c)
  {
  }

  lemma {:induction false} FoldKeepsWordLength(s: string)
    ensures WordLength(LowerAll(s)) == WordLength(s)
  {
    if s != "" {
      LowerKeepsClasses(s[0], s[0]);
      assert LowerAll(s)[1..] == LowerAll(s[1..]);
      FoldKeepsWordLength(s[1..]);
    }
  }

  lemma FoldKeepsTokenLength(s: string)
    requires s != ""
    ensures TokenLength(LowerAll(s)) == TokenLength(s)
  {
    LowerKeepsClasses(s[0], s[|s| - 1]);
    if |s| >= 2 {
      LowerKeepsClasses(s[0], s[1]);
    }
    FoldKeepsWordLength(s);
  }

  /** Case folding moves no token. */
  lemma {:induction false} FoldKeepsTokens(text: string, i: nat, room: nat)
    requires i <= |text|
    ensures Tokens(LowerAll(text), i, room) == Tokens(text, i, room)
    decreases |text| - i
  {
    if i < |text| && room > 0 {
      LowerKeepsClasses(text[i], text[i]);
      if IsSpace(text[i]) {
        FoldKeepsTokens(text, i + 1, room);
      } else {
        var len := TokenLength(text[i..]);
        assert LowerAll(text)[i..] == LowerAll(text[i..]);
        FoldKeepsTokenLength(text[i..]);
        FoldKeepsTokens(text, i + len, if len <= MAX_TOKEN_LEN then room - 1 else room);
      }
    }
  }
}
