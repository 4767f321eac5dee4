/**
 * The C string routines the transfer and discovery code relies on (strlen,
 * strcmp, strncpy, snprintf truncation), stated over character buffers.
 *
 * A C buffer is a `seq<char>`; the C string it holds is its text before the
 * first NUL.
 */
module CStrings {

  const NUL: char := '\0'

  predicate NoNul(s: string)
  {
    NUL !in s
  }

  function Min(a: int, b: int): int
  {
    if a <= b then a else b
  }

  /** A run of `n` NUL characters, as left by zero-initialising a buffer. */
  function Zeros(n: nat): (z: string)
    ensures |z| == n && forall i :: 0 <= i < n ==> z[i] == NUL
  {
    seq(n, _ => NUL)
  }

  /** strlen: the index of the first NUL, or the whole buffer when it has none. */
  function StrLen(buf: string): (n: nat)
    ensures n <= |buf|
    ensures NoNul(buf[..n])
    ensures n < |buf| ==> buf[n] == NUL
  {
    if buf == [] || buf[0] == NUL then 0
    else
      var n := 1 + StrLen(buf[1..]);
      assert buf[..n] == [buf[0]] + buf[1..][..n - 1];
      n
  }

  /** The C string a buffer holds; strcmp(a, b) == 0 is CStr(a) == CStr(b). */
  function CStr(buf: string): (s: string)
    ensures NoNul(s) && |s| <= |buf|
    ensures s == buf[..|s|]
  {
    buf[..StrLen(buf)]
  }

  /** Text without NUL reads back unchanged, whatever follows its terminator. */
  lemma {:induction false} CStrTerminated(text: string, rest: string)
    requires NoNul(text)
    ensures CStr(text + [NUL] + rest) == text
  {
    if text != [] {
      assert (text + [NUL] + rest)[1..] == text[1..] + [NUL] + rest;
      CStrTerminated(text[1..], rest);
    }
  }

  /** Writing a NUL after `prefix` cuts the C string there at the latest. */
  lemma {:induction false} CStrCut(prefix: string, rest: string)
    ensures CStr(prefix + [NUL] + rest) == CStr(prefix)
  {
    if prefix != [] && prefix[0] != NUL {
      assert (prefix + [NUL] + rest)[1..] == prefix[1..] + [NUL] + rest;
      CStrCut(prefix[1..], rest);
    }
  }

  /** strcmp(buf, t) == 0 for a buffer: t is at its front and is followed by a NUL or by the buffer's end. */
  lemma CStrIs(buf: string, t: string)
    requires NoNul(t)
    ensures CStr(buf) == t <==> |t| <= |buf| && buf[..|t|] == t && (|t| == |buf| || buf[|t|] == NUL)
  {

  }

  /**
   * strncpy(field, src, n) into a zero-filled field of `width` characters
   * (n < width): the first min(n, strlen(src)) characters come from src and
   * every other position keeps its NUL.
   */
  function StrNCopyField(src: string, n: nat, width: nat): (field: string)
    requires n < width
    ensures |field| == width && field[width - 1] == NUL
    ensures var k := Min(n, StrLen(src));
      field[..k] == src[..k] && forall i :: k <= i < width ==> field[i] == NUL
  {
    var k := Min(n, StrLen(src));
    src[..k] + Zeros(width - k)
  }

  /** The field reads back as the copied prefix of the source's C string. */
  lemma StrNCopyReadBack(src: string, n: nat, width: nat)
    requires n < width
    ensures CStr(StrNCopyField(src, n, width)) == CStr(src)[..Min(n, |CStr(src)|)]
  {
    var k := Min(n, StrLen(src));
    var field := StrNCopyField(src, n, width);
    assert field == src[..k] + [NUL] + Zeros(width - k - 1);
    assert NoNul(src[..k]) by { assert src[..k] == src[..StrLen(src)][..k]; }
    CStrTerminated(src[..k], Zeros(width - k - 1));
  }

  /** snprintf(buf, size, "%s", s): at most size - 1 characters of s survive. */
  function Truncate(s: string, size: nat): (t: string)
    requires size >= 1
    ensures |t| == Min(|s|, size - 1) && t == s[..|t|]
  {
    if |s| < size then s else s[..size - 1]
  }

  /** Copies `data` over the front of `buf`; the rest of `buf` is untouched (memcpy). */
  method Load<T>(buf: array<T>, data: seq<T>)
    requires |data| <= buf.Length
    modifies buf
    ensures buf[..|data|] == data
    ensures buf[|data|..] == old(buf[|data|..])
  {
    forall i | 0 <= i < |data| {
      buf[i] := data[i];
    }
  }

  /** Writes `text` and its terminating NUL at the front of `buf` (snprintf, inet_ntop). */
  method PutCString(buf: array<char>, text: string)
    requires NoNul(text) && |text| < buf.Length
    modifies buf
    ensures buf[..|text| + 1] == text + [NUL]
    ensures buf[|text| + 1..] == old(buf[|text| + 1..])
    ensures CStr(buf[..]) == text
  {
    Load(buf, text);
    buf[|text|] := NUL;
    assert buf[..] == text + [NUL] + buf[|text| + 1..];
    CStrTerminated(text, buf[|text| + 1..]);
  }
}
