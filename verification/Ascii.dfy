/** The C locale's character classes and ASCII case folding; a char is one byte. */
module Ascii {
  predicate IsDigit(c: char) {
    '0' <= c <= '9'
  }

  predicate IsUpper(c: char) {
    'A' <= c <= 'Z'
  }

  predicate IsLower(c: char) {
    'a' <= c <= 'z'
  }

  predicate IsSpace(c: char) {
    c == ' ' || c == '\t' || c == '\n' || c == '\U{000B}' || c == '\U{000C}' || c == '\r'
  }

  function Lower(c: char): char {
    if 'A' <= c <= 'Z' then c - 'A' + 'a' else c
  }

  function LowerAll(s: string): string {
    seq(|s|, i requires 0 <= i < |s| => Lower(s[i]))
  }

  const UPPER := "ABCDEFGHIJKLMNOPQRSTUVWXYZ"
  const LOWER := "abcdefghijklmnopqrstuvwxyz"
  const DIGITS := "0123456789"

  lemma UpperLetters(c: char)
    ensures IsUpper(c) <==> c in UPPER
  {
    assert |UPPER| == 26;
    if IsUpper(c) {
      assert UPPER[(c - 'A') as int] == c;
    }
  }

  lemma LowerLetters(c: char)
    ensures IsLower(c) <==> c in LOWER
  {
    assert |LOWER| == 26;
    if IsLower(c) {
      assert LOWER[(c - 'a') as int] == c;
    }
  }

  lemma DecimalDigits(c: char)
    ensures IsDigit(c) <==> c in DIGITS
  {
    if IsDigit(c) {
      assert DIGITS[(c - '0') as int] == c;
    }
  }

  lemma Blanks(c: char)
    ensures IsSpace(c) <==> c in " \t\n\r\U{000B}\U{000C}"
  {
  }

  /** Folding maps the capital letters to the small ones and nothing else. */
  lemma Folded(c: char)
    ensures forall i | 0 <= i < 26 && c == UPPER[i] :: Lower(c) == LOWER[i]
    ensures c !in UPPER ==> Lower(c) == c
  {
    UpperLetters(c);
  }
}
