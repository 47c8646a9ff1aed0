/**
 The trigram, word and bigram channels of the embedding (memory/mem9/embed-service/
 embedder.c).  Hash values, logarithm and square root are parameters; sums are real numbers.
 */
module FeatureChannels {
  import opened Ascii
  import opened Sequences
  import opened Tokenizer

  /** fnv1a_seeded, logf and sqrtf. */
  datatype Maths = Maths(hash: (string, nat) -> nat, ln: real -> real, root: nat -> real)

  ghost predicate MathsOk(m: Maths) {
    forall n: nat :: n > 0 ==> m.root(n) > 0.0
  }

  /** One channel: its seed, its place in the vector, and the weight of a key. */
  datatype Channel = Trigrams | Words | Bigrams

  function Seed(ch: Channel): nat {
    match ch case Trigrams => 0x1234 case Words => 0x5678 case Bigrams => 0xB16A
  }

  function Start(ch: Channel): nat {
    match ch case Trigrams => 0 case Words => 64 case Bigrams => 192
  }

  function Size(ch: Channel): (n: nat)
    ensures n > 0
  {
    match ch case Trigrams => 64 case Words => 64 case Bigrams => 32
  }

  const EMBED_DIM := 256

  function Weight(m: Maths, ch: Channel, key: string): real {
    if ch.Words? then 1.0 + m.ln(1.0 + |key| as real) else 1.0
  }

  function DimOf(m: Maths, ch: Channel, key: string): (d: nat)
    ensures d < Size(ch)
  {
    m.hash(key, Seed(ch)) % Size(ch)
  }

  /** Bit 8 of the hash decides the sign. */
  function Signed(m: Maths, ch: Channel, key: string): real {
    if m.hash(key, Seed(ch)) / 0x100 % 2 == 1 then Weight(m, ch, key) else -Weight(m, ch, key)
  }

  function Zeros(n: nat): seq<real> {
    seq(n, i => 0.0)
  }

  /** The counts after a list of keys. */
  function Counts(m: Maths, ch: Channel, keys: seq<string>): (c: seq<real>)
    ensures |c| == Size(ch)
  {
    if keys == [] then Zeros(Size(ch))
    else
      var key := keys[|keys| - 1];
      var c := Counts(m, ch, keys[..|keys| - 1]);
      var d := DimOf(m, ch, key);
      c[d := c[d] + Signed(m, ch, key)]
  }

  /** The counts divided by the root of their number; short texts are left as they are. */
  function Normalized(m: Maths, counts: seq<real>, n: nat): seq<real>
    requires MathsOk(m)
  {
    if n == 0 then counts else seq(|counts|, i requires 0 <= i < |counts| => counts[i] / m.root(n))
  }

  // ---------------------------------------------------------------------------
  // The keys of the three channels
  // ---------------------------------------------------------------------------

  function TrigramKeys(text: string): seq<string> {
    if |text| < 3 then seq(|text|, i requires 0 <= i < |text| => [Lower(text[i])])
    else seq(|text| - 2, i requires 0 <= i < |text| - 2 => TrigramAt(text, i))
  }

  /** Every token of the list lies inside the text. */
  ghost predicate Inside(text: string, tokens: seq<Token>) {
    forall t | t in tokens :: 1 <= t.len && t.start + t.len <= |text|
  }

  predicate IsWord(text: string, t: Token)
    requires 1 <= t.len && t.start + t.len <= |text|
  {
    IsWordChar(text[t.start])
  }

  /** The lower-case bytes of a token; a buffer of 256 bytes takes 255 of them. */
  function WordKey(text: string, t: Token): string
    requires 1 <= t.len && t.start + t.len <= |text|
  {
    var len := if t.len < MAX_TOKEN_LEN then t.len else MAX_TOKEN_LEN - 1;
    LowerAll(text[t.start..t.start + len])
  }

  function WordKeys(text: string, tokens: seq<Token>): seq<string>
    requires Inside(text, tokens)
  {
    if tokens == [] then []
    else
      var n := |tokens| - 1;
      WordKeys(text, tokens[..n]) + (if IsWord(text, tokens[n]) then [WordKey(text, tokens[n])] else [])
  }

  function BigramKey(a: string, b: string): string {
    a + ([' '] + b)
  }

  /** Pairs of neighbouring words. */
  function BigramKeys(text: string, tokens: seq<Token>): seq<string>
    requires Inside(text, tokens)
  {
    if |tokens| < 2 then []
    else
      var n := |tokens| - 1;
      var pair := if IsWord(text, tokens[n - 1]) && IsWord(text, tokens[n])
                  then [BigramKey(WordKey(text, tokens[n - 1]), WordKey(text, tokens[n]))] else [];
      BigramKeys(text, tokens[..n]) + pair
  }

  // ---------------------------------------------------------------------------
  // The loops
  // ---------------------------------------------------------------------------

  method NewCounts(ch: Channel) returns (counts: array<real>)
    ensures fresh(counts) && counts[..] == Zeros(Size(ch))
  {
    counts := new real[Size(ch)](_ => 0.0);
  }

  /** Adds one key to its bucket. */
  method AddKey(m: Maths, ch: Channel, counts: array<real>, key: string, ghost keys: seq<string>)
    requires counts[..] == Counts(m, ch, keys)
    modifies counts
    ensures counts[..] == Counts(m, ch, keys + [key])
  {
    var h := m.hash(key, Seed(ch));
    var dim := h % Size(ch);
    var sign := if h / 0x100 % 2 == 1 then 1.0 else -1.0;
    assert |counts[..]| == Size(ch);
    counts[dim] := counts[dim] + sign * Weight(m, ch, key);
    assert (keys + [key])[..|keys|] == keys;
  }

  method Normalize(m: Maths, counts: array<real>, n: nat)
    requires MathsOk(m)
    modifies counts
    ensures counts[..] == Normalized(m, old(counts[..]), n)
  {
    if n > 0 {
      var norm := m.root(n);
      var i := 0;
      while i < counts.Length
        invariant 0 <= i <= counts.Length
        invariant forall j | 0 <= j < i :: counts[j] == old(counts[j]) / norm
        invariant forall j | i <= j < counts.Length :: counts[j] == old(counts[j])
      {
        counts[i] := counts[i] / norm;
        i := i + 1;
      }
    }
  }

  /** Copies the counts to the channel's place in the vector. */
  method Store(ch: Channel, counts: array<real>, out: array<real>)
    requires counts.Length == Size(ch) && out.Length == EMBED_DIM && counts != out
    modifies out
    ensures out[..] == Placed(ch, old(out[..]), counts[..])
  {
    var start := Start(ch);
    var i := 0;
    while i < counts.Length
      invariant 0 <= i <= counts.Length
      invariant forall j | 0 <= j < i :: out[start + j] == counts[j]
      invariant forall j | 0 <= j < out.Length && !(start <= j < start + i) :: out[j] == old(out[j])
    {
      out[start + i] := counts[i];
      i := i + 1;
    }
  }

  function Placed(ch: Channel, vector: seq<real>, counts: seq<real>): (r: seq<real>)
    requires |vector| == EMBED_DIM && |counts| == Size(ch)
    ensures |r| == EMBED_DIM
  {
    vector[..Start(ch)] + counts + vector[Start(ch) + Size(ch)..]
  }

  method ChannelTrigrams(m: Maths, text: string, out: array<real>)
    requires MathsOk(m) && out.Length == EMBED_DIM
    modifies out
    ensures out[..] == Placed(Trigrams, old(out[..]), TrigramCounts(m, text))
  {
    var counts := NewCounts(Trigrams);
    if |text| < 3 {
      CountUnigrams(m, text, counts);
    } else {
      var n := CountTrigrams(m, text, counts);
      Normalize(m, counts, n);
    }
    Store(Trigrams, counts, out);
  }

  method CountUnigrams(m: Maths, text: string, counts: array<real>)
    requires |text| < 3 && counts[..] == Zeros(Size(Trigrams))
    modifies counts
    ensures counts[..] == Counts(m, Trigrams, TrigramKeys(text))
  {
    ghost var keys := TrigramKeys(text);
    assert keys[..0] == [];
    for i := 0 to |text|
      invariant counts[..] == Counts(m, Trigrams, keys[..i])
    {
      PrefixGrows(keys, i);
      AddKey(m, Trigrams, counts, [Lower(text[i])], keys[..i]);
    }
    assert keys[..|text|] == keys;
  }

  method CountTrigrams(m: Maths, text: string, counts: array<real>) returns (n: nat)
    requires |text| >= 3 && counts[..] == Zeros(Size(Trigrams))
    modifies counts
    ensures n == |TrigramKeys(text)| && counts[..] == Counts(m, Trigrams, TrigramKeys(text))
  {
    TrigramKeyAt(text);
    n := CountTrigramKeys(m, text, counts, TrigramKeys(text));
  }

  lemma TrigramKeyAt(text: string)
    requires |text| >= 3
    ensures |TrigramKeys(text)| == |text| - 2
    ensures forall i | 0 <= i < |text| - 2 :: TrigramKeys(text)[i] == TrigramAt(text, i)
  {
  }

  function TrigramAt(text: string, i: nat): string
    requires i + 2 < |text|
  {
    [Lower(text[i]), Lower(text[i + 1]), Lower(text[i + 2])]
  }

  method CountTrigramKeys(m: Maths, text: string, counts: array<real>, ghost keys: seq<string>) returns (n: nat)
    requires |text| >= 3 && |keys| == |text| - 2 && forall i | 0 <= i < |text| - 2 :: keys[i] == TrigramAt(text, i)
    requires counts[..] == Zeros(Size(Trigrams))
    modifies counts
    ensures n == |keys| && counts[..] == Counts(m, Trigrams, keys)
  {
    n := 0;
    assert keys[..0] == [];
    for i := 0 to |text| - 2
      invariant n == i && counts[..] == Counts(m, Trigrams, keys[..i])
    {
      PrefixGrows(keys, i);
      AddKey(m, Trigrams, counts, TrigramAt(text, i), keys[..i]);
      n := n + 1;
    }
    assert keys[..n] == keys;
  }

  function TrigramCounts(m: Maths, text: string): (c: seq<real>)
    requires MathsOk(m)
    ensures |c| == Size(Trigrams)
  {
    var keys := TrigramKeys(text);
    Normalized(m, Counts(m, Trigrams, keys), if |text| < 3 then 0 else |keys|)
  }

  method LowerInto(buf: array<char>, text: string, start: nat, len: nat)
    requires len <= buf.Length && start + len <= |text|
    modifies buf
    ensures buf[..len] == LowerAll(text[start..start + len])
  {
    var i := 0;
    while i < len
      invariant 0 <= i <= len && forall j | 0 <= j < i :: buf[j] == Lower(text[start + j])
    {
      buf[i] := Lower(text[start + i]);
      i := i + 1;
    }
  }

  /** The key of one word, by way of a buffer of MAX_TOKEN_LEN bytes. */
  method ReadWord(text: string, t: Token, buf: array<char>) returns (key: string)
    requires 1 <= t.len && t.start + t.len <= |text| && buf.Length == MAX_TOKEN_LEN
    modifies buf
    ensures key == WordKey(text, t)
  {
    var len := if t.len < MAX_TOKEN_LEN then t.len else MAX_TOKEN_LEN - 1;
    LowerInto(buf, text, t.start, len);
    key := buf[..len];
  }

  method ChannelWords(m: Maths, text: string, tokens: seq<Token>, out: array<real>)
    requires MathsOk(m) && out.Length == EMBED_DIM && Inside(text, tokens)
    modifies out
    ensures out[..] == Placed(Words, old(out[..]), KeyCounts(m, Words, WordKeys(text, tokens)))
  {
    var counts := NewCounts(Words);
    var wordCount := CountWords(m, text, tokens, counts);
    Normalize(m, counts, wordCount);
    Store(Words, counts, out);
  }

  method CountWords(m: Maths, text: string, tokens: seq<Token>, counts: array<real>) returns (wordCount: nat)
    requires Inside(text, tokens) && counts[..] == Zeros(Size(Words))
    modifies counts
    ensures wordCount == |WordKeys(text, tokens)| && counts[..] == Counts(m, Words, WordKeys(text, tokens))
  {
    var buf := new char[MAX_TOKEN_LEN];
    wordCount := 0;
    var t := 0;
    ghost var keys := [];
    while t < |tokens|
      invariant 0 <= t <= |tokens| && wordCount == |keys| && keys == WordKeys(text, tokens[..t])
      invariant counts[..] == Counts(m, Words, keys)
    {
      assert tokens[..t + 1][..t] == tokens[..t];
      if IsWord(text, tokens[t]) {
        var key := ReadWord(text, tokens[t], buf);
        AddKey(m, Words, counts, key, keys);
        keys := keys + [key];
        wordCount := wordCount + 1;
      }
      t := t + 1;
    }
    assert tokens[..t] == tokens;
  }

  function KeyCounts(m: Maths, ch: Channel, keys: seq<string>): (c: seq<real>)
    requires MathsOk(m)
    ensures |c| == Size(ch)
  {
    Normalized(m, Counts(m, ch, keys), |keys|)
  }

  method ChannelBigrams(m: Maths, text: string, tokens: seq<Token>, out: array<real>)
    requires MathsOk(m) && out.Length == EMBED_DIM && Inside(text, tokens)
    modifies out
    ensures out[..] == Placed(Bigrams, old(out[..]), KeyCounts(m, Bigrams, BigramKeys(text, tokens)))
  {
    var counts := NewCounts(Bigrams);
    var bigramCount := CountBigrams(m, text, tokens, counts);
    Normalize(m, counts, bigramCount);
    Store(Bigrams, counts, out);
  }

  method CountBigrams(m: Maths, text: string, tokens: seq<Token>, counts: array<real>) returns (bigramCount: nat)
    requires Inside(text, tokens) && counts[..] == Zeros(Size(Bigrams))
    modifies counts
    ensures bigramCount == |BigramKeys(text, tokens)| && counts[..] == Counts(m, Bigrams, BigramKeys(text, tokens))
  {
    var buf1 := new char[MAX_TOKEN_LEN];
    var buf2 := new char[MAX_TOKEN_LEN];
    bigramCount := 0;
    var t := 0;
    ghost var keys := [];
    while t + 1 < |tokens|
      invariant 0 <= t && (tokens == [] || t < |tokens|)
      invariant bigramCount == |keys| && keys == BigramKeys(text, tokens[..if tokens == [] then 0 else t + 1])
      invariant counts[..] == Counts(m, Bigrams, keys)
    {
      assert tokens[..t + 2][..t + 1] == tokens[..t + 1];
      if IsWord(text, tokens[t]) && IsWord(text, tokens[t + 1]) {
        var a := ReadWord(text, tokens[t], buf1);
        var b := ReadWord(text, tokens[t + 1], buf2);
        AddKey(m, Bigrams, counts, BigramKey(a, b), keys);
        keys := keys + [BigramKey(a, b)];
        bigramCount := bigramCount + 1;
      }
      t := t + 1;
    }
    assert tokens == [] || tokens[..t + 1] == tokens;
  }

  // ---------------------------------------------------------------------------
  // What is counted, and where
  // ---------------------------------------------------------------------------

  /** The trigrams are the windows of three bytes, folded; a shorter text is taken byte by
      byte. */
  lemma TrigramsAreWindows(text: string)
    ensures var keys, width := TrigramKeys(text), if |text| < 3 then 1 else 3;
      && |keys| == |text| + 1 - width
      && forall i | 0 <= i < |keys| :: i + width <= |text| && keys[i] == LowerAll(text[i..i + width])
  {
    if |text| >= 3 {
      forall i | 0 <= i < |text| - 2
        ensures TrigramKeys(text)[i] == LowerAll(text[i..i + 3])
      {
        assert text[i..i + 3] == [text[i], text[i + 1], text[i + 2]];
      }
    }
  }

  /** A token is a word when it starts with a letter, a digit or an underscore. */
  predicate WordText(t: string) {
    t != "" && (t[0] in UPPER || t[0] in LOWER || t[0] in DIGITS || t[0] == '_')
  }

  /** A word folded, up to 255 bytes of it. */
  function KeyOf(t: string): string {
    LowerAll(if |t| <= 255 then t else t[..255])
  }

  function KeysOf(texts: seq<string>): seq<string> {
    if texts == [] then []
    else KeysOf(texts[..|texts| - 1]) + (if WordText(texts[|texts| - 1]) then [KeyOf(texts[|texts| - 1])] else [])
  }

  /** Each pair of neighbours that are both words, joined by a space. */
  function PairsOf(texts: seq<string>): seq<string> {
    if |texts| < 2 then []
    else
      var n := |texts| - 1;
      var a, b := texts[n - 1], texts[n];
      PairsOf(texts[..n]) + (if WordText(a) && WordText(b) then [KeyOf(a) + " " + KeyOf(b)] else [])
  }

  lemma WordTextOf(text: string, t: Token)
    requires 1 <= t.len && t.start + t.len <= |text|
    ensures IsWord(text, t) <==> WordText(TextOf(text, t))
    ensures t.len <= 256 ==> WordKey(text, t) == KeyOf(TextOf(text, t))
  {
    var c := text[t.start];
    assert TextOf(text, t)[0] == c;
    UpperLetters(c);
    LowerLetters(c);
    DecimalDigits(c);
    if t.len == 256 {
      assert TextOf(text, t)[..255] == text[t.start..t.start + 255];
    }
  }

  /** The keys of a token list are those of its texts. */
  lemma {:induction false} WordsOfTexts(text: string, tokens: seq<Token>, texts: seq<string>)
    requires Inside(text, tokens) && Reads(text, tokens, texts) && ShortTexts(texts)
    ensures WordKeys(text, tokens) == KeysOf(texts)
    decreases |tokens|
  {
    if tokens != [] {
      var n := |tokens| - 1;
      ReadsFewer(text, tokens, texts);
      WordsOfTexts(text, tokens[..n], texts[..n]);
      WordTextOf(text, tokens[n]);
    }
  }

  lemma {:induction false} PairsOfTexts(text: string, tokens: seq<Token>, texts: seq<string>)
    requires Inside(text, tokens) && Reads(text, tokens, texts) && ShortTexts(texts)
    ensures BigramKeys(text, tokens) == PairsOf(texts)
    decreases |tokens|
  {
    if |tokens| > 1 {
      var n := |tokens| - 1;
      ReadsFewer(text, tokens, texts);
      PairsOfTexts(text, tokens[..n], texts[..n]);
      WordTextOf(text, tokens[n]);
      WordTextOf(text, tokens[n - 1]);
      PairKey(WordKey(text, tokens[n - 1]), WordKey(text, tokens[n]));
    }
  }

  predicate ShortTexts(texts: seq<string>) {
    forall i | 0 <= i < |texts| :: |texts[i]| <= 256
  }

  lemma ReadsFewer(text: string, tokens: seq<Token>, texts: seq<string>)
    requires Inside(text, tokens) && Reads(text, tokens, texts) && ShortTexts(texts) && tokens != []
    ensures var n := |tokens| - 1;
      Inside(text, tokens[..n]) && Reads(text, tokens[..n], texts[..n]) && ShortTexts(texts[..n])
  {
  }

  lemma PairKey(a: string, b: string)
    ensures BigramKey(a, b) == a + " " + b
  {
  }

  /** The words and pairs of a text: those of its first 4096 tokens of at most 256 bytes. */
  lemma KeysOfText(text: string)
    ensures Inside(text, Tokenized(text))
    ensures WordKeys(text, Tokenized(text)) == KeysOf(Limited(AllTokens(text), 4096))
    ensures BigramKeys(text, Tokenized(text)) == PairsOf(Limited(AllTokens(text), 4096))
  {
    TokensInside(text, 0, MAX_TOKENS);
    TokenListIs(text);
    LimitedMembers(AllTokens(text), 4096);
    WordsOfTexts(text, Tokenized(text), Limited(AllTokens(text), 4096));
    PairsOfTexts(text, Tokenized(text), Limited(AllTokens(text), 4096));
  }

  /** A key adds its weight to one of 64, 64 or 32 buckets, chosen by its hash under the
      channel's seed, with the sign of the hash's bit 8. */
  lemma OneKey(m: Maths, key: string)
    ensures var h, w := m.hash(key, 0x1234), 1.0;
      Counts(m, Trigrams, [key]) == Zeros(64)[h % 64 := if h / 256 % 2 == 1 then w else -w]
    ensures var h, w := m.hash(key, 0x5678), 1.0 + m.ln(1.0 + |key| as real);
      Counts(m, Words, [key]) == Zeros(64)[h % 64 := if h / 256 % 2 == 1 then w else -w]
    ensures var h, w := m.hash(key, 0xB16A), 1.0;
      Counts(m, Bigrams, [key]) == Zeros(32)[h % 32 := if h / 256 % 2 == 1 then w else -w]
  {
    OneKeyOf(m, Trigrams, key);
    OneKeyOf(m, Words, key);
    OneKeyOf(m, Bigrams, key);
  }

  lemma OneKeyOf(m: Maths, ch: Channel, key: string)
    ensures Counts(m, ch, [key]) == Zeros(Size(ch))[DimOf(m, ch, key) := Signed(m, ch, key)]
  {
    assert [key][..0] == [] && Counts(m, ch, []) == Zeros(Size(ch));
  }

  /** The channels lie side by side in the vector. */
  lemma ChannelPlaces(vector: seq<real>, a: seq<real>, b: seq<real>, c: seq<real>)
    requires |vector| == 256 && |a| == |b| == 64 && |c| == 32
    ensures Placed(Bigrams, Placed(Words, Placed(Trigrams, vector, a), b), c)
      == a + b + vector[128..192] + c + vector[224..]
  {
  }

  // ---------------------------------------------------------------------------
  // Case does not matter
  // ---------------------------------------------------------------------------

  lemma {:induction false} TokensInside(text: string, i: nat, room: nat)
    requires i <= |text|
    ensures Inside(text, Tokens(text, i, room))
    decreases |text| - i
  {
    if i < |text| && room > 0 {
      if IsSpace(text[i]) {
        TokensInside(text, i + 1, room);
      } else {
        var len := TokenLength(text[i..]);
        TokensInside(text, i + len, if len <= MAX_TOKEN_LEN then room - 1 else room);
      }
    }
  }

  lemma LowerAllTwice(s: string)
    ensures LowerAll(LowerAll(s)) == LowerAll(s)
  {
    forall i: nat | i < |s|
      ensures LowerAll(LowerAll(s))[i] == LowerAll(s)[i]
    {
      LowerKeepsClasses(s[i], s[i]);
    }
  }

  lemma FoldedWord(text: string, t: Token)
    requires 1 <= t.len && t.start + t.len <= |text|
    ensures IsWord(LowerAll(text), t) == IsWord(text, t) && WordKey(LowerAll(text), t) == WordKey(text, t)
  {
    LowerKeepsClasses(text[t.start], text[t.start]);
    var len := if t.len < MAX_TOKEN_LEN then t.len else MAX_TOKEN_LEN - 1;
    assert LowerAll(text)[t.start..t.start + len] == LowerAll(text[t.start..t.start + len]);
    LowerAllTwice(text[t.start..t.start + len]);
  }

  lemma {:induction false} FoldedKeys(text: string, tokens: seq<Token>)
    requires Inside(text, tokens)
    ensures WordKeys(LowerAll(text), tokens) == WordKeys(text, tokens)
    ensures BigramKeys(LowerAll(text), tokens) == BigramKeys(text, tokens)
    decreases |tokens|
  {
    if tokens != [] {
      var n := |tokens| - 1;
      FoldedKeys(text, tokens[..n]);
      FoldedWord(text, tokens[n]);
      if n > 0 {
        FoldedWord(text, tokens[n - 1]);
      }
    }
  }

  lemma FoldedTrigrams(text: string)
    ensures TrigramKeys(LowerAll(text)) == TrigramKeys(text)
  {
    var a, b := TrigramKeys(LowerAll(text)), TrigramKeys(text);
    forall i: nat | i < |b|
      ensures a[i] == b[i]
    {
      FoldedTrigram(text, i);
    }
  }

  lemma FoldedTrigram(text: string, i: nat)
    requires i < |TrigramKeys(text)|
    ensures TrigramKeys(LowerAll(text))[i] == TrigramKeys(text)[i]
  {
    LowerKeepsClasses(text[i], text[i]);
    if |text| >= 3 {
      LowerKeepsClasses(text[i + 1], text[i + 2]);
      LowerKeepsClasses(text[i + 2], text[i + 2]);
    }
  }

  /** Folding the case of a text changes none of the three channels. */
  lemma CaseFoldInvariance(m: Maths, text: string)
    requires MathsOk(m)
    ensures TrigramCounts(m, LowerAll(text)) == TrigramCounts(m, text)
    ensures Inside(text, Tokenized(text)) && Inside(LowerAll(text), Tokenized(LowerAll(text)))
    ensures KeyCounts(m, Words, WordKeys(LowerAll(text), Tokenized(LowerAll(text))))
         == KeyCounts(m, Words, WordKeys(text, Tokenized(text)))
    ensures KeyCounts(m, Bigrams, BigramKeys(LowerAll(text), Tokenized(LowerAll(text))))
         == KeyCounts(m, Bigrams, BigramKeys(text, Tokenized(text)))
  {
    FoldedTrigrams(text);
    FoldKeepsTokens(text, 0, MAX_TOKENS);
    TokensInside(text, 0, MAX_TOKENS);
    FoldedKeys(text, Tokenized(text));
  }

  // ---------------------------------------------------------------------------
  // A bag of words
  // ---------------------------------------------------------------------------

  /** What the keys add to dimension d. */
  function Sum(m: Maths, ch: Channel, keys: seq<string>, d: nat): real {
    if keys == [] then 0.0
    else (if DimOf(m, ch, keys[0]) == d then Signed(m, ch, keys[0]) else 0.0) + Sum(m, ch, keys[1..], d)
  }

  lemma {:induction false} SumJoin(m: Maths, ch: Channel, a: seq<string>, b: seq<string>, d: nat)
    ensures Sum(m, ch, a + b, d) == Sum(m, ch, a, d) + Sum(m, ch, b, d)
    decreases |a|
  {
    if a == [] {
      assert a + b == b;
    } else {
      assert (a + b)[1..] == a[1..] + b;
      SumJoin(m, ch, a[1..], b, d);
    }
  }

  lemma {:induction false} CountsAreSums(m: Maths, ch: Channel, keys: seq<string>, d: nat)
    requires d < Size(ch)
    ensures Counts(m, ch, keys)[d] == Sum(m, ch, keys, d)
    decreases |keys|
  {
    if keys != [] {
      var n := |keys| - 1;
      CountsAreSums(m, ch, keys[..n], d);
      assert keys == keys[..n] + [keys[n]];
      SumJoin(m, ch, keys[..n], [keys[n]], d);
      assert Sum(m, ch, [], d) == 0.0 && [keys[n]][1..] == [];
    }
  }

  /** A stored bucket: the sum of its keys, divided by the root of the number of all keys -
      except in the trigram channel of a text of fewer than three bytes. */
  lemma BucketIs(m: Maths, ch: Channel, keys: seq<string>, text: string, d: nat)
    requires MathsOk(m) && d < Size(ch)
    ensures keys != [] ==> KeyCounts(m, ch, keys)[d] == Sum(m, ch, keys, d) / m.root(|keys|)
    ensures keys == [] ==> KeyCounts(m, ch, keys)[d] == 0.0
    ensures ch.Trigrams? ==>
      var sum := Sum(m, ch, TrigramKeys(text), d);
      TrigramCounts(m, text)[d] == if |text| < 3 then sum else sum / m.root(|text| - 2)
  {
    CountsAreSums(m, ch, keys, d);
    if ch.Trigrams? {
      CountsAreSums(m, ch, TrigramKeys(text), d);
    }
  }

  lemma {:induction false} SumOfMultiset(m: Maths, ch: Channel, a: seq<string>, b: seq<string>, d: nat)
    requires multiset(a) == multiset(b)
    ensures Sum(m, ch, a, d) == Sum(m, ch, b, d)
    decreases |a|
  {
    assert |multiset(a)| == |a| && |multiset(b)| == |b|;
    if a != [] {
      var i := OneOfEach(a, 0, b);
      assert a[..0] + a[1..] == a[1..];
      SumDrop(m, ch, b, i, d);
      SumOfMultiset(m, ch, a[1..], b[..i] + b[i + 1..], d);
    }
  }

  lemma SumDrop(m: Maths, ch: Channel, b: seq<string>, i: nat, d: nat)
    requires i < |b|
    ensures Sum(m, ch, b, d) == Sum(m, ch, b[..i] + b[i + 1..], d) + (if DimOf(m, ch, b[i]) == d then Signed(m, ch, b[i]) else 0.0)
  {
    assert b == b[..i] + b[i..] && b[i..][1..] == b[i + 1..];
    SumJoin(m, ch, b[..i], b[i..], d);
    SumJoin(m, ch, b[..i], b[i + 1..], d);
  }

  /** A channel depends on how often each key occurs, not on their order. */
  lemma OrderDoesNotMatter(m: Maths, ch: Channel, a: seq<string>, b: seq<string>)
    requires MathsOk(m) && multiset(a) == multiset(b)
    ensures KeyCounts(m, ch, a) == KeyCounts(m, ch, b)
  {
    assert |multiset(a)| == |a| && |multiset(b)| == |b|;
    forall d | 0 <= d < Size(ch)
      ensures Counts(m, ch, a)[d] == Counts(m, ch, b)[d]
    {
      CountsAreSums(m, ch, a, d);
      CountsAreSums(m, ch, b, d);
      SumOfMultiset(m, ch, a, b, d);
    }
    assert Counts(m, ch, a) == Counts(m, ch, b);
  }

  // ---------------------------------------------------------------------------
  // What a key tells about its words
  // ---------------------------------------------------------------------------

  /** A bigram key determines its two words: words hold no space. */
  lemma BigramKeyTellsWords(a: string, b: string, c: string, d: string)
    requires ' ' !in a && ' ' !in c && BigramKey(a, b) == BigramKey(c, d)
    ensures a == c && b == d
  {
    var k := BigramKey(a, b);
    assert k[..|a|] == a && k[..|c|] == c;
    SpaceBehindWord(a, b, |c|);
    SpaceBehindWord(c, d, |a|);
    assert k[|a| + 1..] == b && k[|c| + 1..] == d;
  }

  lemma SpaceBehindWord(a: string, b: string, i: nat)
    requires ' ' !in a && i < |BigramKey(a, b)|
    ensures BigramKey(a, b)[i] == ' ' ==> i >= |a|
  {
    if i < |a| {
      assert a[i] in a;
    }
  }

  /** A word key determines the word up to case if and only if the word is shorter than
      256 bytes: the last byte of a 256-byte token is not looked at. */
  lemma WordKeyLosesLastByteIff(text: string, t: Token)
    requires 1 <= t.len <= MAX_TOKEN_LEN && t.start + t.len <= |text|
    ensures WordKey(text, t) == LowerAll(TextOf(text, t)) <==> t.len < MAX_TOKEN_LEN
  {
    assert |WordKey(text, t)| == if t.len < MAX_TOKEN_LEN then t.len else MAX_TOKEN_LEN - 1;
    assert |LowerAll(TextOf(text, t))| == t.len;
  }
}
