/** Bytes, 32-bit little-endian words and C strings: the vocabulary shared by every other module. */
module Bytes {

  type byte = b: int | 0 <= b < 256

  const WORD_LIMIT: int := 0x1_0000_0000

  type word = w: int | 0 <= w < 0x1_0000_0000

  /** The four bytes of a 32-bit word as the x86 stores them: least significant first. */
  function EncodeWord(w: word): (s: seq<byte>)
    ensures |s| == 4
  {
    [w % 256, (w / 0x100) % 256, (w / 0x1_0000) % 256, w / 0x100_0000]
  }

  function DecodeWord(s: seq<byte>): (w: word)
    requires |s| == 4
  {
    (s[0] as int) + 0x100 * (s[1] as int) + 0x1_0000 * (s[2] as int) + 0x100_0000 * (s[3] as int)
  }

  /** Storing a word and loading it back is the identity. */
  lemma WordRoundTrip(w: word)
    ensures DecodeWord(EncodeWord(w)) == w
  {
    var b0, r1 := w % 256, w / 0x100;
    assert w == 0x100 * r1 + b0;
    assert w / 0x1_0000 == r1 / 0x100;
    assert w / 0x100_0000 == r1 / 0x1_0000;
  }

  function Zeros(n: nat): (s: seq<byte>)
    ensures |s| == n && forall i :: 0 <= i < n ==> s[i] == 0
  {
    seq(n, i => 0)
  }

  /** The C string that starts at s[0]: everything before the first NUL. */
  function CString(s: seq<byte>): (r: seq<byte>)
    ensures |r| <= |s| && r == s[..|r|] && 0 !in r
    ensures |r| < |s| ==> s[|r|] == 0
  {
    if s == [] || s[0] == 0 then [] else [s[0]] + CString(s[1..])
  }

  /** A C string is fixed by the bytes up to its terminator. */
  lemma {:induction false} CStringUnique(s: seq<byte>, r: seq<byte>)
    requires |r| < |s| && r == s[..|r|] && 0 !in r && s[|r|] == 0
    ensures CString(s) == r
  {
    if r != [] {
      assert s[0] == r[0] && s[1..][..|r| - 1] == r[1..];
      CStringUnique(s[1..], r[1..]);
    }
  }

  /** `buf` with the bytes from `at` on replaced by `s`. */
  function Splice(buf: seq<byte>, at: nat, s: seq<byte>): (r: seq<byte>)
    requires at + |s| <= |buf|
    ensures |r| == |buf|
    ensures forall i :: 0 <= i < |buf| ==> r[i] == if at <= i < at + |s| then s[i - at] else buf[i]
  {
    buf[..at] + s + buf[at + |s|..]
  }
}
