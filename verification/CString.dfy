/** Copying text into character buffers. */
module CString {

  /** strcpy(dst + at, s): the characters and a NUL; nothing before or after them changes. */
  method StrCpy(dst: array<char>, at: nat, s: string)
    requires at + |s| < dst.Length
    modifies dst
    ensures dst[..at] == old(dst[..at]) && dst[at..at + |s|] == s && dst[at + |s|] == '\0'
    ensures dst[at + |s| + 1..] == old(dst[at + |s| + 1..])
  {
    var i := 0;
    while i < |s|
      invariant 0 <= i <= |s|
      invariant dst[..at] == old(dst[..at]) && dst[at..at + i] == s[..i]
      invariant dst[at + |s| + 1..] == old(dst[at + |s| + 1..])
    {
      dst[at + i] := s[i];
      i := i + 1;
    }
    dst[at + |s|] := '\0';
  }
}
