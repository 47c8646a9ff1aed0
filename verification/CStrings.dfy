/** Strings in C buffers. */
module CStrings {
  /** What a buffer of `cap` bytes keeps of a string. */
  function Cut(s: string, cap: nat): string
    requires cap > 0
  {
    if |s| < cap then s else s[..cap - 1]
  }

  /** A buffer read as a C string: up to the first NUL. */
  function CString(s: string): string {
    if s == "" || s[0] == '\0' then "" else [s[0]] + CString(s[1..])
  }

  /** A buffer keeps the beginning of the string and leaves room for the NUL. */
  lemma CutKeepsBeginning(s: string, cap: nat)
    requires cap > 0
    ensures Cut(s, cap) <= s && |Cut(s, cap)| == if |s| <= cap - 1 then |s| else cap - 1
  {
  }

  lemma {:induction false} CStringEndsAtNul(s: string)
    ensures CString(s) <= s && '\0' !in CString(s)
    ensures |CString(s)| < |s| ==> s[|CString(s)|] == '\0'
  {
    if s != "" && s[0] != '\0' {
      CStringEndsAtNul(s[1..]);
      assert s == [s[0]] + s[1..];
    }
  }
}
