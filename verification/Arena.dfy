/** The flat word arena of the decoder (src/fountain.rs, `xor_at`): equally long
    slots in one vector of words. */
module Arena {
  import opened Words
  import Simd

  /** `arena` is the concatenation of `slots`, each `w` words long. */
  ghost predicate Chunked(arena: seq<bv32>, slots: seq<Block>, w: nat) {
    && |arena| == |slots| * w
    && forall s :: 0 <= s < |slots| ==> |slots[s]| == w && HoldsAt(arena, s * w, slots[s])
  }

  ghost predicate HoldsAt(arena: seq<bv32>, off: nat, v: Block) {
    off + |v| <= |arena| && arena[off..off + |v|] == v
  }

  lemma SlotOrder(s: nat, t: nat, w: nat)
    requires s < t
    ensures s * w + w <= t * w
  {
    assert t * w == s * w + (t - s) * w;
    assert (t - s) * w == w + (t - s - 1) * w;
  }

  /** Distinct slots do not overlap: `xor_at` never aliases. */
  lemma SlotsApart(s: nat, t: nat, n: nat, w: nat)
    requires s < n && t < n && s != t
    ensures s * w + w <= n * w && t * w + w <= n * w
    ensures s * w + w <= t * w || t * w + w <= s * w
  {
    SlotOrder(s, n, w);
    SlotOrder(t, n, w);
    if s < t { SlotOrder(s, t, w); } else { SlotOrder(t, s, w); }
  }

  /** `v` written over the words from `at` on. */
  function Splice(a: seq<bv32>, at: nat, v: Block): (r: seq<bv32>)
    requires at + |v| <= |a|
    ensures |r| == |a|
  {
    a[..at] + v + a[at + |v|..]
  }

  lemma SpliceLeft(a: seq<bv32>, at: nat, v: Block, cut: nat)
    requires at + |v| <= cut <= |a|
    ensures Splice(a, at, v) == Splice(a[..cut], at, v) + a[cut..]
  {
  }

  lemma SpliceRight(a: seq<bv32>, cut: nat, v: Block)
    requires cut + |v| <= |a|
    ensures Splice(a, cut, v) == a[..cut] + Splice(a[cut..], 0, v)
  {
  }

  /** The arena after XORing the words at `b` into the words at `a`. */
  function XoredAt(arena: seq<bv32>, a: nat, b: nat, w: nat): (r: seq<bv32>)
    requires a + w <= |arena| && b + w <= |arena|
    ensures |r| == |arena|
  {
    Splice(arena, a, Xor(arena[a..a + w], arena[b..b + w]))
  }

  lemma SliceTake(s: seq<bv32>, cut: nat, i: nat, j: nat)
    requires i <= j <= cut <= |s|
    ensures s[..cut][i..j] == s[i..j]
  {
  }

  lemma SliceDrop(s: seq<bv32>, cut: nat, n: nat)
    requires cut + n <= |s|
    ensures s[cut..][..n] == s[cut..cut + n] && s[cut..][0..0 + n] == s[cut..cut + n]
  {
  }

  /** XORs slot `b` into slot `a`.  Splitting the arena at the higher offset needs the slots disjoint. */
  method XorAt(arena: seq<bv32>, a: nat, b: nat, w: nat) returns (r: seq<bv32>)
    requires a + w <= |arena| && b + w <= |arena| && (a + w <= b || b + w <= a)
    ensures r == XoredAt(arena, a, b, w)
  {
    hide Xor, Splice;
    ghost var dst, src := arena[a..a + w], arena[b..b + w];
    if a < b {
      var left, right := arena[..b], arena[b..];
      SliceTake(arena, b, a, a + w);
      SpliceLeft(arena, a, Xor(dst, src), b);
      SliceDrop(arena, b, w);
      left := XorSlice(left, a, right[..w], dst);
      r := left + right;
    } else {
      var left, right := arena[..a], arena[a..];
      SliceTake(arena, a, b, b + w);
      SpliceRight(arena, a, Xor(dst, src));
      SliceDrop(arena, a, w);
      right := XorSlice(right, 0, left[b..b + w], dst);
      r := left + right;
    }
  }

  method XorSlice(a: seq<bv32>, at: nat, src: Block, ghost dst: Block) returns (r: seq<bv32>)
    requires at + |src| <= |a| && dst == a[at..at + |src|]
    ensures r == Splice(a, at, Xor(dst, src))
  {
    var buf := new bv32[|src|](i requires 0 <= i < |src| => a[at + i]);
    assert buf[..] == dst;
    Simd.XorInto(buf, src);
    r := a[..at] + buf[..] + a[at + |src|..];
  }

  lemma SpliceOutside(a: seq<bv32>, at: nat, v: Block, u: nat, w: nat)
    requires at + |v| <= |a| && u + w <= |a| && (u + w <= at || at + |v| <= u)
    ensures Splice(a, at, v)[u..u + w] == a[u..u + w]
  {
  }

  /** Overwriting one slot. */
  lemma SpliceChunk(arena: seq<bv32>, slots: seq<Block>, w: nat, s: nat, v: Block)
    requires Chunked(arena, slots, w) && s < |slots| && |v| == w
    ensures s * w + w <= |arena|
    ensures Chunked(Splice(arena, s * w, v), slots[s := v], w)
  {
    SlotOrder(s, |slots|, w);
    var r := Splice(arena, s * w, v);
    forall u | 0 <= u < |slots| ensures HoldsAt(r, u * w, slots[s := v][u]) {
      assert HoldsAt(arena, u * w, slots[u]);
      if u != s {
        SlotsApart(s, u, |slots|, w);
        SpliceOutside(arena, s * w, v, u * w, w);
      }
    }
  }

  /** On slots, `xor_at` is one XOR and no other change. */
  lemma XoredAtChunks(arena: seq<bv32>, slots: seq<Block>, w: nat, s: nat, t: nat)
    requires Chunked(arena, slots, w) && s < |slots| && t < |slots| && s != t
    ensures s * w + w <= |arena| && t * w + w <= |arena|
    ensures s * w + w <= t * w || t * w + w <= s * w
    ensures Chunked(XoredAt(arena, s * w, t * w, w), slots[s := Xor(slots[s], slots[t])], w)
  {
    hide Splice, Xor, HoldsAt, XoredAt;
    SlotsApart(s, t, |slots|, w);
    XoredHeld(arena, s * w, t * w, w, slots[s], slots[t]);
    hide Chunked;
    SpliceChunk(arena, slots, w, s, Xor(slots[s], slots[t]));
  }

  lemma XoredHeld(arena: seq<bv32>, a: nat, b: nat, w: nat, u: Block, v: Block)
    requires |u| == |v| == w && HoldsAt(arena, a, u) && HoldsAt(arena, b, v)
    ensures a + w <= |arena| && b + w <= |arena| && XoredAt(arena, a, b, w) == Splice(arena, a, Xor(u, v))
  {
    hide Splice, Xor;
  }

  /** Appending a slot. */
  lemma AppendChunk(arena: seq<bv32>, slots: seq<Block>, w: nat, v: Block)
    requires Chunked(arena, slots, w) && |v| == w
    ensures Chunked(arena + v, slots + [v], w)
  {
    assert (|slots| + 1) * w == |slots| * w + w;
    forall s | 0 <= s < |slots| + 1 ensures HoldsAt(arena + v, s * w, (slots + [v])[s]) {
      if s < |slots| {
        SlotOrder(s, |slots|, w);
        assert HoldsAt(arena, s * w, slots[s]);
        assert (arena + v)[s * w..s * w + w] == arena[s * w..s * w + w];
      }
    }
  }
}
