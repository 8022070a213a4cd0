/** Raw bytes and the C-string conventions the line editor relies on. */
module Bytes {

  newtype byte = x: int | 0 <= x < 256

  const NUL: byte := 0

  predicate NoNul(s: seq<byte>) {
    forall i :: 0 <= i < |s| ==> s[i] != NUL
  }

  /** The bytes a C string designates: everything before its first NUL
      (what `strlen` measures and `strdup` copies). */
  function CString(s: seq<byte>): (r: seq<byte>)
    ensures |r| <= |s| && r == s[..|r|]
    ensures NoNul(r)
    ensures |r| < |s| ==> s[|r|] == NUL
  {
    if |s| == 0 || s[0] == NUL then [] else [s[0]] + CString(s[1..])
  }

  /** A string without NUL bytes is its own C string. */
  lemma CStringOfNoNul(s: seq<byte>)
    requires NoNul(s)
    ensures CString(s) == s
  {
  }

  function Zeros(n: nat): (r: seq<byte>)
    ensures |r| == n && forall i :: 0 <= i < n ==> r[i] == NUL
  {
    if n == 0 then [] else [NUL] + Zeros(n - 1)
  }

  /** The `n` bytes `strncpy(dst, src, n)` writes: the C string `src`
      cut at `n`, padded with NUL bytes up to `n`. */
  function StrnCpy(src: seq<byte>, n: nat): (r: seq<byte>)
    ensures |r| == n
    ensures forall i :: 0 <= i < n && i < |CString(src)| ==> r[i] == src[i]
    ensures forall i :: |CString(src)| <= i < n ==> r[i] == NUL
  {
    var c := CString(src);
    if n <= |c| then c[..n] else c + Zeros(n - |c|)
  }

  /** Copying a whole NUL-free string with `strncpy` copies it exactly. */
  lemma StrnCpyWhole(s: seq<byte>)
    requires NoNul(s)
    ensures StrnCpy(s, |s|) == s
  {
    CStringOfNoNul(s);
  }

  /** `strncpy` with the source's own `strlen` copies exactly the C string. */
  lemma StrnCpyOfStrlen(s: seq<byte>)
    ensures StrnCpy(s, |CString(s)|) == CString(s)
  {
  }
}
