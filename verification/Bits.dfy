/** Bit vectors packed into 64-bit words: the occupancy vector of src/set.rs and
    the `Sparse` block sets of src/fountain.rs. */
module Bits {

  predicate HasBit(word: bv64, n: bv6) {
    word & (1 << n) != 0
  }

  function PutBit(word: bv64, n: bv6, on: bool): bv64 {
    if on then word | (1 << n) else word & !(1 << n)
  }

  predicate BitAt(word: bv64, n: nat)
    requires n < 64
  {
    HasBit(word, n as bv6)
  }

  predicate Get(bits: seq<bv64>, i: nat)
    requires i < 64 * |bits|
  {
    BitAt(bits[i / 64], i % 64)
  }

  function Put(bits: seq<bv64>, i: nat, on: bool): (r: seq<bv64>)
    requires i < 64 * |bits|
    ensures |r| == |bits|
  {
    bits[i / 64 := PutBit(bits[i / 64], (i % 64) as bv6, on)]
  }

  /** Writing one bit changes that bit and no other. */
  lemma GetPut(bits: seq<bv64>, i: nat, on: bool, j: nat)
    requires i < 64 * |bits| && j < 64 * |bits|
    ensures Get(Put(bits, i, on), j) <==> if i == j then on else Get(bits, j)
  {
    hide HasBit, PutBit;
    if i / 64 == j / 64 {
      ToBv6(i % 64, j % 64);
      HasPut(bits[i / 64], (i % 64) as bv6, on, (j % 64) as bv6);
    }
  }

  lemma HasPut(word: bv64, m: bv6, on: bool, n: bv6)
    ensures HasBit(PutBit(word, m, on), n) <==> if m == n then on else HasBit(word, n)
  {
    if on { HasOr(word, m, n); } else { HasAndNot(word, m, n); }
  }

  lemma ToBv6(m: nat, n: nat)
    requires m < 64 && n < 64
    ensures m as bv6 == n as bv6 <==> m == n
  {
    Bv6ToNat(m);
    Bv6ToNat(n);
  }

  lemma Bv6ToNat(n: nat)
    requires n < 64
    ensures (n as bv6) as nat == n
  {
  }

  lemma HasOr(word: bv64, m: bv6, n: bv6)
    ensures HasBit(word | (1 << m), n) <==> m == n || HasBit(word, n)
  {
    if m == n {
      assert (word | (1 << m)) & (1 << m) != 0;
    } else if HasBit(word, n) {
      OrKeeps(word, m, n);
    } else {
      OrMisses(word, m, n);
    }
  }

  lemma OrKeeps(word: bv64, m: bv6, n: bv6)
    requires word & (1 << n) != 0
    ensures (word | (1 << m)) & (1 << n) != 0
  {
  }

  lemma OrMisses(word: bv64, m: bv6, n: bv6)
    requires m != n && word & (1 << n) == 0
    ensures (word | (1 << m)) & (1 << n) == 0
  {
  }

  lemma HasAndNot(word: bv64, m: bv6, n: bv6)
    ensures HasBit(word & !(1 << m), n) <==> m != n && HasBit(word, n)
  {
    if m == n {
      assert (word & !(1 << m)) & (1 << m) == 0;
    } else if HasBit(word, n) {
      AndNotKeeps(word, m, n);
    } else {
      AndNotMisses(word, m, n);
    }
  }

  lemma AndNotKeeps(word: bv64, m: bv6, n: bv6)
    requires m != n && word & (1 << n) != 0
    ensures (word & !(1 << m)) & (1 << n) != 0
  {
  }

  lemma AndNotMisses(word: bv64, m: bv6, n: bv6)
    requires word & (1 << n) == 0
    ensures (word & !(1 << m)) & (1 << n) == 0
  {
  }

  lemma GetZero(bits: seq<bv64>, j: nat)
    requires j < 64 * |bits| && bits[j / 64] == 0
    ensures !Get(bits, j)
  {
    ZeroHasNone((j % 64) as bv6);
  }

  lemma ZeroHasNone(n: bv6)
    ensures !HasBit(0, n)
  {
  }

  /** Index of the lowest set bit at or above `n`. */
  function TrailingZeros(word: bv64, n: nat): (r: nat)
    requires n < 64 && exists b :: n <= b < 64 && BitAt(word, b)
    ensures n <= r < 64 && BitAt(word, r)
    decreases 64 - n
  {
    if BitAt(word, n) then n else TrailingZeros(word, n + 1)
  }

  /** A nonzero word has a set bit. */
  lemma {:induction false} NonzeroHasBit(word: bv64) returns (r: nat)
    requires word != 0
    ensures r < 64 && BitAt(word, r)
    decreases word
  {
    var b := LowBit(word);
    r := b as nat;
    assert r as bv6 == b;
  }

  lemma {:induction false} LowBit(word: bv64) returns (r: bv6)
    requires word != 0
    ensures HasBit(word, r)
    decreases word
  {
    if word & 1 == 1 {
      OddHasZero(word);
      r := 0;
    } else {
      ShiftDown(word);
      r := LowBit(word >> 1);
      ShiftUp(word, r);
      r := r + 1;
    }
  }

  lemma OddHasZero(word: bv64)
    requires word & 1 == 1
    ensures HasBit(word, 0)
  {
  }

  lemma ShiftDown(word: bv64)
    requires word != 0 && word & 1 == 0
    ensures word >> 1 != 0 && word >> 1 < word
  {
  }

  lemma ShiftUp(word: bv64, r: bv6)
    requires HasBit(word >> 1, r)
    ensures r != 63 && HasBit(word, r + 1)
  {
  }

  /* ---------- the vector as a sequence of booleans ---------- */

  /** The first `n` bits. */
  ghost function Flags(bits: seq<bv64>, n: nat): (r: seq<bool>)
    requires n <= 64 * |bits|
    ensures |r| == n
  {
    if n == 0 then [] else Flags(bits, n - 1) + [Get(bits, n - 1)]
  }

  lemma {:induction false} FlagAt(bits: seq<bv64>, n: nat, i: nat)
    requires i < n <= 64 * |bits|
    ensures Flags(bits, n)[i] == Get(bits, i)
  {
    if i < n - 1 { FlagAt(bits, n - 1, i); }
  }

  /** `occ_bit`: reads one bit. */
  method Test(bits: seq<bv64>, i: nat, ghost n: nat) returns (on: bool)
    requires i < n <= 64 * |bits|
    ensures on == Flags(bits, n)[i]
  {
    on := Get(bits, i);
    FlagAt(bits, n, i);
  }

  /** `occ_set`: writes one bit and no other. */
  method Write(bits: seq<bv64>, i: nat, on: bool, ghost n: nat) returns (r: seq<bv64>)
    requires i < n <= 64 * |bits|
    ensures |r| == |bits| && Flags(r, n) == Flags(bits, n)[i := on]
  {
    r := Put(bits, i, on);
    forall j | 0 <= j < n ensures Flags(r, n)[j] == Flags(bits, n)[i := on][j] {
      FlagAt(r, n, j);
      FlagAt(bits, n, j);
      GetPut(bits, i, on, j);
    }
  }

  lemma FlagsZero(bits: seq<bv64>, n: nat)
    requires n <= 64 * |bits| && forall w :: 0 <= w < |bits| ==> bits[w] == 0
    ensures Flags(bits, n) == seq(n, _ => false)
  {
    forall j | 0 <= j < n ensures !Flags(bits, n)[j] {
      FlagAt(bits, n, j);
      GetZero(bits, j);
    }
  }
}
