/**
 Splitting a word at camelCase and snake_case borders: subtokenize_camel_snake of
 memory/mem9/embed-service/embedder.c.
 */
module SubTokenizer {
  import opened Ascii
  import opened Sequences
  import opened Tokenizer

  function LowerRun(s: string): (n: nat)
    ensures n <= |s|
  {
    if s == "" || !IsLower(s[0]) then 0 else 1 + LowerRun(s[1..])
  }

  function DigitRun(s: string): (n: nat)
    ensures n <= |s|
  {
    if s == "" || !IsDigit(s[0]) then 0 else 1 + DigitRun(s[1..])
  }

  function PartLength(s: string): (n: nat)
    requires s != ""
    ensures 1 <= n <= |s|
  {
    if IsUpper(s[0]) then 1 + LowerRun(s[1..])
    else if IsLower(s[0]) then LowerRun(s)
    else if IsDigit(s[0]) then DigitRun(s)
    else 1
  }

  /** The parts of a word when there is room for `room` of them. */
  function Parts(s: string, room: nat): (r: seq<string>)
    ensures |r| <= room
    decreases |s|
  {
    if s == "" || room == 0 then []
    else if s[0] == '_' then Parts(s[1..], room)
    else [s[..PartLength(s)]] + Parts(s[PartLength(s)..], room - 1)
  }

  method FindPartEnd(word: string, start: nat) returns (i: nat)
    requires start < |word|
    ensures i == start + PartLength(word[start..])
  {
    i := start;
    ghost var s := word[start..];
    if IsUpper(word[i]) {
      i := i + 1;
      assert s[1..] == word[i..];
      while i < |word| && IsLower(word[i])
        invariant start < i <= |word| && LowerRun(s[1..]) == i - start - 1 + LowerRun(word[i..])
      {
        assert word[i..][1..] == word[i + 1..];
        i := i + 1;
      }
    } else if IsLower(word[i]) {
      while i < |word| && IsLower(word[i])
        invariant start <= i <= |word| && LowerRun(s) == i - start + LowerRun(word[i..])
      {
        assert word[i..][1..] == word[i + 1..];
        i := i + 1;
      }
    } else if IsDigit(word[i]) {
      while i < |word| && IsDigit(word[i])
        invariant start <= i <= |word| && DigitRun(s) == i - start + DigitRun(word[i..])
      {
        assert word[i..][1..] == word[i + 1..];
        i := i + 1;
      }
    } else {
      i := i + 1;
    }
  }

  /** Appends the parts of a word to the token list. */
  method SubtokenizeCamelSnake(word: string, tokens: seq<string>) returns (longer: seq<string>)
    requires |tokens| <= MAX_TOKENS
    ensures longer == tokens + Parts(word, 4096 - |tokens|)
  {
    longer := tokens;
    var i := 0;
    assert word[0..] == word;
    while i < |word| && |longer| < MAX_TOKENS
      invariant 0 <= i <= |word| && |longer| <= MAX_TOKENS
      invariant tokens + Parts(word, MAX_TOKENS - |tokens|) == longer + Parts(word[i..], MAX_TOKENS - |longer|)
      decreases |word| - i
    {
      i := SkipUnderscores(word, i, MAX_TOKENS - |longer|);
      if i >= |word| {
        break;
      }
      var start := i;
      i := FindPartEnd(word, start);
      OnePart(word, start, i, MAX_TOKENS - |longer|);
      AppendOne(longer, word[start..i], Parts(word[i..], MAX_TOKENS - |longer| - 1));
      longer := longer + [word[start..i]];
    }
  }

  lemma OnePart(word: string, start: nat, end: nat, room: nat)
    requires start < |word| && word[start] != '_' && end == start + PartLength(word[start..]) && room > 0
    ensures end <= |word|
    ensures Parts(word[start..], room) == [word[start..end]] + Parts(word[end..], room - 1)
  {
    var s := word[start..];
    assert s[..end - start] == word[start..end] && s[end - start..] == word[end..];
  }

  method SkipUnderscores(word: string, start: nat, ghost room: nat) returns (i: nat)
    requires start <= |word|
    ensures start <= i <= |word| && (i < |word| ==> word[i] != '_')
    ensures Parts(word[i..], room) == Parts(word[start..], room)
  {
    i := start;
    while i < |word| && word[i] == '_'
      invariant start <= i <= |word| && Parts(word[i..], room) == Parts(word[start..], room)
    {
      assert word[i..][1..] == word[i + 1..];
      i := i + 1;
    }
  }

  // ---------------------------------------------------------------------------
  // Parts are as long as they can be and keep the word
  // ---------------------------------------------------------------------------

  predicate AllLower(t: string) {
    forall c | c in t :: IsLower(c)
  }

  /** A capital with small letters, small letters, digits, or any other single byte. */
  predicate IsPart(t: string) {
    && t != "" && t[0] != '_'
    && ((IsUpper(t[0]) && AllLower(t[1..])) || AllLower(t) || (forall c | c in t :: IsDigit(c)) || |t| == 1)
  }

  lemma {:induction false} LowerRunIsRun(s: string)
    ensures AllLower(s[..LowerRun(s)])
    ensures LowerRun(s) < |s| ==> !IsLower(s[LowerRun(s)])
  {
    if s != "" && IsLower(s[0]) {
      LowerRunIsRun(s[1..]);
      var n := LowerRun(s);
      assert s[..n] == [s[0]] + s[1..][..n - 1];
    }
  }

  lemma {:induction false} DigitRunIsRun(s: string)
    ensures forall c | c in s[..DigitRun(s)] :: IsDigit(c)
    ensures DigitRun(s) < |s| ==> !IsDigit(s[DigitRun(s)])
  {
    if s != "" && IsDigit(s[0]) {
      DigitRunIsRun(s[1..]);
      var n := DigitRun(s);
      assert s[..n] == [s[0]] + s[1..][..n - 1];
    }
  }

  lemma PartIsPart(s: string)
    requires s != "" && s[0] != '_'
    ensures IsPart(s[..PartLength(s)])
  {
    var n := PartLength(s);
    LowerRunIsRun(s);
    LowerRunIsRun(s[1..]);
    DigitRunIsRun(s);
    assert s[..n][0] == s[0] && s[..n][1..] == s[1..][..n - 1];
  }

  /** No longer prefix of the word is a part. */
  lemma PartIsLongest(s: string, m: nat)
    requires s != "" && PartLength(s) < m <= |s|
    ensures !IsPart(s[..m])
  {
    var n := PartLength(s);
    var t := s[..m];
    LowerRunIsRun(s);
    LowerRunIsRun(s[1..]);
    DigitRunIsRun(s);
    assert t[0] == s[0] && t[n] == s[n] && t[0] in t && t[n] in t;
    assert t[1..][n - 1] == s[n] == s[1..][n - 1] && t[1..][n - 1] in t[1..];
  }

  function WithoutUnderscores(s: string): string {
    if s == "" then "" else (if s[0] == '_' then "" else [s[0]]) + WithoutUnderscores(s[1..])
  }

  lemma {:induction false} NoUnderscoresJoin(a: string, b: string)
    requires forall c | c in a :: c != '_'
    ensures WithoutUnderscores(a + b) == a + WithoutUnderscores(b)
    decreases |a|
  {
    if a == "" {
      assert a + b == b;
    } else {
      assert a[0] in a && (a + b)[1..] == a[1..] + b;
      assert forall c | c in a[1..] :: c in a;
      NoUnderscoresJoin(a[1..], b);
    }
  }

  lemma PartHasNoUnderscore(t: string)
    requires IsPart(t)
    ensures forall c | c in t :: c != '_'
  {
    assert t == [t[0]] + t[1..];
  }

  /** While there is room, the parts are the word without its underscores. */
  lemma {:induction false} PartsKeepWord(s: string, room: nat)
    requires |Parts(s, room)| < room
    ensures Joined(Parts(s, room)) == WithoutUnderscores(s)
    ensures forall t | t in Parts(s, room) :: IsPart(t)
    decreases |s|
  {
    if s != "" {
      if s[0] == '_' {
        PartsKeepWord(s[1..], room);
      } else {
        var n := PartLength(s);
        var all := Parts(s, room);
        assert all[1..] == Parts(s[n..], room - 1);
        PartsKeepWord(s[n..], room - 1);
        PartIsPart(s);
        PartHasNoUnderscore(s[..n]);
        assert s == s[..n] + s[n..];
        NoUnderscoresJoin(s[..n], s[n..]);
      }
    }
  }
}
