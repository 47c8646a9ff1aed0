module Sequences {
  lemma AppendOne<T>(a: seq<T>, v: T, b: seq<T>)
    ensures a + ([v] + b) == (a + [v]) + b
  {
  }

  lemma PrefixGrows<T>(s: seq<T>, i: nat)
    requires i < |s|
    ensures s[..i + 1] == s[..i] + [s[i]]
  {
  }

  lemma OneTaken<T>(b: seq<T>, i: nat)
    requires i < |b|
    ensures multiset(b[..i] + b[i + 1..]) == multiset(b) - multiset{b[i]}
  {
    assert b == b[..i] + [b[i]] + b[i + 1..];
  }

  /** Taking one equal element from two lists with the same elements. */
  lemma OneOfEach<T>(a: seq<T>, k: nat, b: seq<T>) returns (i: nat)
    requires multiset(a) == multiset(b) && k < |a|
    ensures i < |b| && b[i] == a[k]
    ensures multiset(a[..k] + a[k + 1..]) == multiset(b[..i] + b[i + 1..])
  {
    assert a[k] in multiset(a);
    i :| 0 <= i < |b| && b[i] == a[k];
    OneTaken(a, k);
    OneTaken(b, i);
  }
}
