/** Bytes, 32-bit words and the block copies the firmware does with memcpy and memset. */
module Bytes {
  type Byte = x: int | 0 <= x < 256

  const WORD16 := 0x1_0000
  const WORD32 := 0x1_0000_0000

  type U32 = x: int | 0 <= x < WORD32

  datatype Option<+T> = None | Some(value: T)

  function Zeros(n: nat): (r: seq<Byte>)
    ensures |r| == n
    ensures forall i :: 0 <= i < n ==> r[i] == 0
  {
    seq(n, i => 0)
  }

  /** `s` followed by zeros up to length `n`: a memset of the buffer and a copy of `s` to its front. */
  function Padded(s: seq<Byte>, n: nat): (r: seq<Byte>)
    requires |s| <= n
    ensures |r| == n && r[..|s|] == s
    ensures forall i :: |s| <= i < n ==> r[i] == 0
  {
    s + Zeros(n - |s|)
  }

  /** The contents of `dst` after memcpy(dst + at, src, |src|). */
  function Splice(dst: seq<Byte>, at: nat, src: seq<Byte>): (r: seq<Byte>)
    requires at + |src| <= |dst|
    ensures |r| == |dst|
    ensures r[at..at + |src|] == src
    ensures forall i :: 0 <= i < at || at + |src| <= i < |dst| ==> r[i] == dst[i]
  {
    dst[..at] + src + dst[at + |src|..]
  }

  /** A slice that lies beside the spliced range is the slice of the original. */
  lemma SpliceBeside(dst: seq<Byte>, at: nat, src: seq<Byte>, lo: nat, n: nat)
    requires at + |src| <= |dst| && lo + n <= |dst|
    requires lo + n <= at || at + |src| <= lo
    ensures Splice(dst, at, src)[lo..lo + n] == dst[lo..lo + n]
  {
  }

  lemma Scaled(k: nat, a: nat, b: nat)
    requires a <= b
    ensures k * a <= k * b
  {
  }

  method Memcpy(dst: array<Byte>, at: nat, src: seq<Byte>)
    requires at + |src| <= dst.Length
    modifies dst
    ensures dst[..] == Splice(old(dst[..]), at, src)
  {
    for i := 0 to |src|
      invariant dst[..] == Splice(old(dst[..]), at, src[..i])
    {
      dst[at + i] := src[i];
      assert src[..i + 1] == src[..i] + [src[i]];
    }
    assert src[..|src|] == src;
  }

  method Clear(dst: array<Byte>)
    modifies dst
    ensures dst[..] == Zeros(dst.Length)
  {
    for i := 0 to dst.Length
      invariant forall j :: 0 <= j < i ==> dst[j] == 0
    {
      dst[i] := 0;
    }
  }
}
