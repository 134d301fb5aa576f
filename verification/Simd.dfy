/** The lane-chunked XOR kernels (src/simd.rs). */
module Simd {
  import opened Words

  /** `dst[at..at + n]` XORed with `src[at..at + n]`, as one lane-wide load, XOR and store. */
  method XorLanes(dst: array<bv32>, src: Block, at: nat, lanes: nat)
    requires dst.Length == |src| && at + lanes <= dst.Length
    modifies dst
    ensures forall j :: 0 <= j < dst.Length ==>
      dst[j] == if at <= j < at + lanes then old(dst[j]) ^ src[j] else old(dst[j])
  {
    forall j | at <= j < at + lanes { dst[j] := dst[j] ^ src[j]; }
  }

  /** The shape shared by the vector kernels: whole chunks of `lanes` words, then a scalar tail. */
  method XorChunked(dst: array<bv32>, src: Block, lanes: nat)
    requires dst.Length == |src| && lanes > 0
    modifies dst
    ensures dst[..] == Xor(old(dst[..]), src)
  {
    var n := dst.Length;
    var i := 0;
    while i + lanes <= n
      invariant 0 <= i <= n
      invariant forall j :: 0 <= j < n ==> dst[j] == if j < i then old(dst[j]) ^ src[j] else old(dst[j])
    {
      XorLanes(dst, src, i, lanes);
      i := i + lanes;
    }
    while i < n
      invariant 0 <= i <= n
      invariant forall j :: 0 <= j < n ==> dst[j] == if j < i then old(dst[j]) ^ src[j] else old(dst[j])
    {
      dst[i] := dst[i] ^ src[i];
      i := i + 1;
    }
  }

  /** Eight 32-bit lanes per step. */
  method XorAvx2(dst: array<bv32>, src: Block)
    requires dst.Length == |src|
    modifies dst
    ensures dst[..] == Xor(old(dst[..]), src)
  {
    XorChunked(dst, src, 8);
  }

  /** Four 32-bit lanes per step. */
  method XorSse2(dst: array<bv32>, src: Block)
    requires dst.Length == |src|
    modifies dst
    ensures dst[..] == Xor(old(dst[..]), src)
  {
    XorChunked(dst, src, 4);
  }

  /** Runtime dispatch: whichever kernel the processor selects, the result is the pointwise XOR. */
  method XorInto(dst: array<bv32>, src: Block)
    requires dst.Length == |src|
    modifies dst
    ensures dst[..] == Xor(old(dst[..]), src)
  {
    if * {
      XorAvx2(dst, src);
    } else {
      XorSse2(dst, src);
    }
  }
}
