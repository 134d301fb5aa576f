/** Word blocks and their byte view (src/bytes.rs), and the GF(2) algebra that
    the fountain codec computes in.

    The source reinterprets `&[u32]` as `&[u8]` in place.  Here the view is the
    explicit little-endian pair `WordsOf`/`BytesOf`; XOR commutes with it, so
    nothing below depends on the byte order. */
module Words {

  type Block = seq<bv32>

  /** Bitwise XOR of two equally long blocks. */
  function Xor(a: Block, b: Block): (r: Block)
    requires |a| == |b|
    ensures |r| == |a|
  {
    seq(|a|, i requires 0 <= i < |a| => a[i] ^ b[i])
  }

  function Zeros(w: nat): (r: Block)
    ensures |r| == w
  {
    seq(w, _ => 0)
  }

  lemma XorComm(a: Block, b: Block)
    requires |a| == |b|
    ensures Xor(a, b) == Xor(b, a)
  {
  }

  lemma XorAssoc(a: Block, b: Block, c: Block)
    requires |a| == |b| == |c|
    ensures Xor(Xor(a, b), c) == Xor(a, Xor(b, c))
  {
  }

  lemma XorZero(a: Block)
    ensures Xor(a, Zeros(|a|)) == a == Xor(Zeros(|a|), a)
  {
  }

  /** XOR is its own inverse: adding the same block twice changes nothing. */
  lemma XorCancel(a: Block, b: Block)
    requires |a| == |b|
    ensures Xor(Xor(a, b), b) == a
  {
  }

  /* ---------- source vectors and index-set sums ---------- */

  /** `x` is a source vector of `k` blocks of `w` words. */
  ghost predicate IsSource(x: seq<Block>, k: nat, w: nat) {
    |x| == k && forall b {:trigger x[b]} :: 0 <= b < k ==> |x[b]| == w
  }

  /** The XOR of the blocks of `x` whose index lies in `s` and below `n`. */
  ghost function SumTo(x: seq<Block>, s: set<nat>, n: nat, w: nat): (r: Block)
    requires IsSource(x, |x|, w) && n <= |x|
    ensures |r| == w
  {
    if n == 0 then Zeros(w)
    else
      var r := SumTo(x, s, n - 1, w);
      if n - 1 in s then Xor(r, x[n - 1]) else r
  }

  /** The XOR of the blocks of `x` whose index lies in `s`. */
  ghost function Sum(x: seq<Block>, s: set<nat>, w: nat): (r: Block)
    requires IsSource(x, |x|, w)
    ensures |r| == w
  {
    SumTo(x, s, |x|, w)
  }

  lemma {:induction false} SumToEmpty(x: seq<Block>, n: nat, w: nat)
    requires IsSource(x, |x|, w) && n <= |x|
    ensures SumTo(x, {}, n, w) == Zeros(w)
  {
    if n > 0 { SumToEmpty(x, n - 1, w); }
  }

  lemma {:induction false} SumToAdd(x: seq<Block>, s: set<nat>, b: nat, n: nat, w: nat)
    requires IsSource(x, |x|, w) && n <= |x| && b !in s
    ensures SumTo(x, s + {b}, n, w) ==
            if b < n then Xor(SumTo(x, s, n, w), x[b]) else SumTo(x, s, n, w)
  {
    if n > 0 {
      SumToAdd(x, s, b, n - 1, w);
      if b < n - 1 && n - 1 in s {
        var r := SumTo(x, s, n - 1, w);
        XorAssoc(r, x[b], x[n - 1]);
        XorComm(x[b], x[n - 1]);
        XorAssoc(r, x[n - 1], x[b]);
      }
    }
  }

  /** Extending an index set by one block XORs that block into the sum. */
  lemma SumAdd(x: seq<Block>, s: set<nat>, b: nat, w: nat)
    requires IsSource(x, |x|, w) && b < |x| && b !in s
    ensures Sum(x, s + {b}, w) == Xor(Sum(x, s, w), x[b])
  {
    SumToAdd(x, s, b, |x|, w);
  }

  /** Eliminating a known block: XORing `x[b]` into a sum that contains it removes it. */
  lemma SumRemove(x: seq<Block>, s: set<nat>, b: nat, w: nat)
    requires IsSource(x, |x|, w) && b < |x| && b in s
    ensures Xor(Sum(x, s, w), x[b]) == Sum(x, s - {b}, w)
  {
    assert (s - {b}) + {b} == s;
    SumAdd(x, s - {b}, b, w);
    XorCancel(Sum(x, s - {b}, w), x[b]);
  }

  lemma SumEmpty(x: seq<Block>, w: nat)
    requires IsSource(x, |x|, w)
    ensures Sum(x, {}, w) == Zeros(w)
  {
    SumToEmpty(x, |x|, w);
  }

  lemma SumSingle(x: seq<Block>, b: nat, w: nat)
    requires IsSource(x, |x|, w) && b < |x|
    ensures Sum(x, {b}, w) == x[b]
  {
    SumEmpty(x, w);
    assert {} + {b} == {b};
    SumAdd(x, {}, b, w);
    XorZero(x[b]);
  }

  /* ---------- the byte view of a word block ---------- */

  function ByteOf(v: bv32, n: nat): bv8
    requires n < 4
  {
    if n == 0 then (v & 0xff) as bv8
    else if n == 1 then ((v >> 8) & 0xff) as bv8
    else if n == 2 then ((v >> 16) & 0xff) as bv8
    else (v >> 24) as bv8
  }

  function WordOf(b0: bv8, b1: bv8, b2: bv8, b3: bv8): bv32 {
    (b0 as bv32) | ((b1 as bv32) << 8) | ((b2 as bv32) << 16) | ((b3 as bv32) << 24)
  }

  lemma WordOfBytes(v: bv32)
    ensures WordOf(ByteOf(v, 0), ByteOf(v, 1), ByteOf(v, 2), ByteOf(v, 3)) == v
  {
  }

  lemma BytesOfWord(b0: bv8, b1: bv8, b2: bv8, b3: bv8)
    ensures ByteOf(WordOf(b0, b1, b2, b3), 0) == b0
    ensures ByteOf(WordOf(b0, b1, b2, b3), 1) == b1
    ensures ByteOf(WordOf(b0, b1, b2, b3), 2) == b2
    ensures ByteOf(WordOf(b0, b1, b2, b3), 3) == b3
  {
  }

  lemma ByteOfXor(u: bv32, v: bv32, n: nat)
    requires n < 4
    ensures ByteOf(u ^ v, n) == ByteOf(u, n) ^ ByteOf(v, n)
  {
    if n == 0 {
      ByteOfXor0(u, v);
    } else if n == 1 {
      ByteOfXor1(u, v);
    } else if n == 2 {
      ByteOfXor2(u, v);
    } else {
      ByteOfXor3(u, v);
    }
  }

  lemma ByteOfXor0(u: bv32, v: bv32)
    ensures ByteOf(u ^ v, 0) == ByteOf(u, 0) ^ ByteOf(v, 0)
  {
  }

  lemma ByteOfXor1(u: bv32, v: bv32)
    ensures ByteOf(u ^ v, 1) == ByteOf(u, 1) ^ ByteOf(v, 1)
  {
  }

  lemma ByteOfXor2(u: bv32, v: bv32)
    ensures ByteOf(u ^ v, 2) == ByteOf(u, 2) ^ ByteOf(v, 2)
  {
  }

  lemma ByteOfXor3(u: bv32, v: bv32)
    ensures ByteOf(u ^ v, 3) == ByteOf(u, 3) ^ ByteOf(v, 3)
  {
  }

  /** The bytes of a block, four per word. */
  function BytesOf(ws: Block): (r: seq<bv8>)
    ensures |r| == 4 * |ws|
  {
    seq(4 * |ws|, j requires 0 <= j < 4 * |ws| => ByteOf(ws[j / 4], j % 4))
  }

  /** Byte `j` of a zero-padded byte string. */
  function Padded(bytes: seq<bv8>, j: nat): bv8 {
    if j < |bytes| then bytes[j] else 0
  }

  /** A `w`-word block whose byte view starts with `bytes` and is zero beyond. */
  function WordsOf(bytes: seq<bv8>, w: nat): (r: Block)
    ensures |r| == w
  {
    seq(w, i requires 0 <= i < w =>
      WordOf(Padded(bytes, 4 * i), Padded(bytes, 4 * i + 1), Padded(bytes, 4 * i + 2), Padded(bytes, 4 * i + 3)))
  }

  /** Everything past the first `n` bytes of the block is zero. */
  ghost predicate ZeroPadded(ws: Block, n: nat) {
    forall j {:trigger BytesOf(ws)[j]} :: n <= j < 4 * |ws| ==> BytesOf(ws)[j] == 0
  }

  lemma BytesOfWordsOf(bytes: seq<bv8>, w: nat, j: nat)
    requires j < 4 * w
    ensures BytesOf(WordsOf(bytes, w))[j] == Padded(bytes, j)
  {
    var i := j / 4;
    BytesOfWord(Padded(bytes, 4 * i), Padded(bytes, 4 * i + 1), Padded(bytes, 4 * i + 2), Padded(bytes, 4 * i + 3));
  }

  /** Storing bytes in a zeroed block and reading them back is the identity. */
  lemma BytesRoundTrip(bytes: seq<bv8>, w: nat)
    requires |bytes| <= 4 * w
    ensures BytesOf(WordsOf(bytes, w))[..|bytes|] == bytes
    ensures ZeroPadded(WordsOf(bytes, w), |bytes|)
  {
    forall j | 0 <= j < 4 * w ensures BytesOf(WordsOf(bytes, w))[j] == Padded(bytes, j) {
      BytesOfWordsOf(bytes, w, j);
    }
  }

  /** Truncating a zero-padded block to `n` bytes loses nothing. */
  lemma WordsRoundTrip(ws: Block, n: nat)
    requires n <= 4 * |ws| && ZeroPadded(ws, n)
    ensures WordsOf(BytesOf(ws)[..n], |ws|) == ws
  {
    forall i | 0 <= i < |ws| ensures WordsOf(BytesOf(ws)[..n], |ws|)[i] == ws[i] {
      WordBack(ws, n, i);
    }
  }

  lemma WordBack(ws: Block, n: nat, i: nat)
    requires n <= 4 * |ws| && ZeroPadded(ws, n) && i < |ws|
    ensures WordsOf(BytesOf(ws)[..n], |ws|)[i] == ws[i]
  {
    hide ByteOf, WordOf;
    ByteBack(ws, n, i, 0);
    ByteBack(ws, n, i, 1);
    ByteBack(ws, n, i, 2);
    ByteBack(ws, n, i, 3);
    WordOfBytes(ws[i]);
  }

  lemma ByteBack(ws: Block, n: nat, i: nat, m: nat)
    requires n <= 4 * |ws| && ZeroPadded(ws, n) && i < |ws| && m < 4
    ensures Padded(BytesOf(ws)[..n], 4 * i + m) == ByteOf(ws[i], m)
  {
    hide ByteOf;
    var j := 4 * i + m;
    assert j / 4 == i && j % 4 == m;
    assert BytesOf(ws)[j] == ByteOf(ws[i], m);
  }

  lemma XorZeroPadded(a: Block, b: Block, n: nat)
    requires |a| == |b| && ZeroPadded(a, n) && ZeroPadded(b, n)
    ensures ZeroPadded(Xor(a, b), n)
  {
    forall j | n <= j < 4 * |a| ensures BytesOf(Xor(a, b))[j] == 0 {
      ByteOfXor(a[j / 4], b[j / 4], j % 4);
      assert BytesOf(a)[j] == 0 && BytesOf(b)[j] == 0;
    }
  }

  lemma ZerosZeroPadded(w: nat, n: nat)
    ensures ZeroPadded(Zeros(w), n)
  {
  }

  lemma {:induction false} SumToZeroPadded(x: seq<Block>, s: set<nat>, n: nat, w: nat, len: nat)
    requires IsSource(x, |x|, w) && n <= |x|
    requires forall b :: 0 <= b < |x| ==> ZeroPadded(x[b], len)
    ensures ZeroPadded(SumTo(x, s, n, w), len)
  {
    if n > 0 {
      SumToZeroPadded(x, s, n - 1, w, len);
      if n - 1 in s { XorZeroPadded(SumTo(x, s, n - 1, w), x[n - 1], len); }
    } else {
      ZerosZeroPadded(w, len);
    }
  }
}
