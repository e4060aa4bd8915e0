/** Bytes and byte strings. */
module ByteSeqs {
  newtype u8 = x: int | 0 <= x < 256

  type Bytes = seq<u8>

  const U32_BOUND: nat := 0x1_0000_0000
  const U64_BOUND: nat := 0x1_0000_0000_0000_0000

  /** What is left of a sum in 32 bits that wrap around. */
  function Wrap(x: nat): (r: nat)
    ensures r < U32_BOUND && (x < U32_BOUND ==> r == x)
  {
    if x < U32_BOUND then x else Wrap(x - U32_BOUND)
  }

  lemma {:induction false} WrapIsMod(x: nat)
    ensures Wrap(x) == x % U32_BOUND
  {
    if x >= U32_BOUND { WrapIsMod(x - U32_BOUND); }
  }

  /** It does not matter when a sum wraps around. */
  lemma {:induction false} WrapAdd(a: nat, b: nat)
    ensures Wrap(Wrap(a) + b) == Wrap(a + b)
  {
    if a >= U32_BOUND { WrapAdd(a - U32_BOUND, b); }
  }

  function Min(a: nat, b: nat): nat {
    if a < b then a else b
  }

  function Zeros(n: nat): (r: Bytes)
    ensures |r| == n && forall i :: 0 <= i < n ==> r[i] == 0
  {
    seq(n, _ => 0)
  }

  /** `data` written over `s` from `offset` on; what does not fit is dropped. */
  function Splice(s: Bytes, offset: nat, data: Bytes): (r: Bytes)
    ensures |r| == |s|
    ensures forall i :: 0 <= i < |s| ==> r[i] == if offset <= i < offset + |data| then data[i - offset] else s[i]
  {
    seq(|s|, i requires 0 <= i < |s| => if offset <= i < offset + |data| then data[i - offset] else s[i])
  }

  /** What was written is read back, and everything else is as it was. */
  lemma SpliceReads(s: Bytes, offset: nat, data: Bytes, at: nat, len: nat)
    requires at + len <= |s|
    ensures offset + |data| <= |s| ==> Splice(s, offset, data)[offset..offset + |data|] == data
    ensures at + len <= offset || offset + |data| <= at ==> Splice(s, offset, data)[at..at + len] == s[at..at + len]
  {
  }

  /** A write that goes on where the last one stopped. */
  lemma SpliceFurther(s: Bytes, offset: nat, data: Bytes, k: nat, n: nat)
    requires k <= n <= |data|
    ensures Splice(Splice(s, offset, data[..k]), offset + k, data[k..n]) == Splice(s, offset, data[..n])
  {
  }

  /** Off the device nothing more is written. */
  lemma SpliceBeyond(s: Bytes, offset: nat, data: Bytes, k: nat)
    requires k <= |data| && (k == |data| || |s| <= offset + k)
    ensures Splice(s, offset, data[..k]) == Splice(s, offset, data)
  {
  }

  /** A copy into part of a buffer. */
  method CopyInto(dst: array<u8>, at: nat, src: Bytes)
    requires at + |src| <= dst.Length
    modifies dst
    ensures dst[..] == Splice(old(dst[..]), at, src)
  {
    for n := 0 to |src|
      invariant forall k :: 0 <= k < n ==> dst[at + k] == src[k]
      invariant forall k :: 0 <= k < dst.Length && !(at <= k < at + n) ==> dst[k] == old(dst[k])
    {
      dst[at + n] := src[n];
    }
  }
}
