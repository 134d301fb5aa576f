/** The generator's bit operations on numbers are those of 32-bit machine words. */
module MachineWords {
  import opened Modular
  import opened Prng
  import Words

  function Nat(b: bv8): (r: nat)
    ensures r < 256
  {
    b as nat
  }

  /** The number a machine word stands for: its bytes, the lowest last. */
  function Value(u: bv32): (r: u32) {
    Below(Words.ByteOf(u, 0), Below(Words.ByteOf(u, 1), Below(Words.ByteOf(u, 2), Nat(Words.ByteOf(u, 3)))))
  }

  function Below(b: bv8, rest: nat): (r: nat)
    ensures rest < 0x100_0000 ==> r < 0x1_0000_0000
    ensures rest < 0x1_0000 ==> r < 0x100_0000
    ensures rest < 0x100 ==> r < 0x1_0000
  {
    Nat(b) + 256 * rest
  }

  /* ---------- exclusive-or ---------- */

  lemma Halves(b: bv8)
    ensures Nat(b) == 2 * Nat(b >> 1) + Nat(b & 1) && Nat(b & 1) < 2
  {
  }

  lemma LowBit(b: bv8, c: bv8)
    ensures Nat((b ^ c) & 1) == (Nat(b & 1) + Nat(c & 1)) % 2
  {
  }

  lemma HalvesOfXor(b: bv8, c: bv8)
    ensures Nat(b ^ c) == 2 * Nat((b >> 1) ^ (c >> 1)) + (Nat(b & 1) + Nat(c & 1)) % 2
  {
    hide Nat;
    Halves(b ^ c);
    LowBit(b, c);
    assert (b >> 1) ^ (c >> 1) == (b ^ c) >> 1;
  }

  /** One more low bit on both sides. */
  lemma XorDouble(x: nat, p: nat, y: nat, q: nat)
    requires p < 2 && q < 2
    ensures Xor(2 * x + p, 2 * y + q) == 2 * Xor(x, y) + (p + q) % 2
  {
    hide Xor;
    XorBits(2 * x + p, 2 * y + q);
    assert (2 * x + p) / 2 == x && (2 * y + q) / 2 == y;
  }

  /** `x` moved up by `n` bits. */
  function Raised(x: nat, n: nat): nat {
    if n == 0 then x else 2 * Raised(x, n - 1)
  }

  lemma Split(b: bv8) returns (h: nat, l: nat)
    ensures h == Nat(b >> 1) && l == Nat(b & 1) && Nat(b) == 2 * h + l && l < 2
  {
    hide Nat;
    h, l := Nat(b >> 1), Nat(b & 1);
    Halves(b);
  }

  lemma SplitXor(b: bv8, c: bv8) returns (h: nat)
    ensures h == Nat((b >> 1) ^ (c >> 1)) && Nat(b ^ c) == 2 * h + (Nat(b & 1) + Nat(c & 1)) % 2
  {
    hide Nat;
    h := Nat((b >> 1) ^ (c >> 1));
    HalvesOfXor(b, c);
  }

  lemma XorStep(b: bv8, c: bv8, x: nat, y: nat, z: nat)
    requires Xor(Nat(b >> 1) + x, Nat(c >> 1) + y) == Nat((b >> 1) ^ (c >> 1)) + z
    ensures Xor(Nat(b) + 2 * x, Nat(c) + 2 * y) == Nat(b ^ c) + 2 * z
  {
    hide Xor, Nat;
    var b1, p := Split(b);
    var c1, q := Split(c);
    var e1 := SplitXor(b, c);
    XorOnHalves(Nat(b), b1, p, Nat(c), c1, q, e1, x, y, z);
  }

  lemma XorOnHalves(b: nat, b1: nat, p: nat, c: nat, c1: nat, q: nat, e1: nat, x: nat, y: nat, z: nat)
    requires b == 2 * b1 + p && c == 2 * c1 + q && p < 2 && q < 2 && Xor(b1 + x, c1 + y) == e1 + z
    ensures Xor(b + 2 * x, c + 2 * y) == 2 * e1 + (p + q) % 2 + 2 * z
  {
    hide Xor;
    XorDouble(b1 + x, p, c1 + y, q);
    assert 2 * (b1 + x) + p == b + 2 * x && 2 * (c1 + y) + q == c + 2 * y;
  }

  /** Exclusive-or of two numbers acts on their `n` low bits and on the rest. */
  lemma {:induction false} XorLow(b: bv8, c: bv8, x: nat, y: nat, n: nat)
    requires Nat(b) < Pow2(n) && Nat(c) < Pow2(n)
    ensures Xor(Nat(b) + Raised(x, n), Nat(c) + Raised(y, n)) == Nat(b ^ c) + Raised(Xor(x, y), n)
  {
    hide Xor, Nat;
    if n == 0 {
      ZeroByte(b);
      ZeroByte(c);
      ZeroByte(b ^ c);
    } else {
      Halves(b);
      Halves(c);
      XorLow(b >> 1, c >> 1, x, y, n - 1);
      XorStep(b, c, Raised(x, n - 1), Raised(y, n - 1), Raised(Xor(x, y), n - 1));
    }
  }

  lemma ZeroByte(b: bv8)
    ensures Nat(b) == 0 <==> b == 0
  {
  }

  lemma RaisedByte(x: nat)
    ensures Raised(x, 8) == 256 * x
  {
    assert Raised(x, 1) == 2 * x;
    assert Raised(x, 3) == 8 * x;
    assert Raised(x, 5) == 32 * x;
    assert Raised(x, 7) == 128 * x;
  }

  lemma Pow2Of8()
    ensures Pow2(8) == 256
  {
    assert Pow2(4) == 16;
  }

  lemma BelowIs(b: bv8, x: nat, n: nat)
    requires n == 8
    ensures Below(b, x) == Nat(b) + Raised(x, n) && Nat(b) < Pow2(n)
  {
    hide Nat;
    RaisedByte(x);
    Pow2Of8();
  }

  lemma XorByte(b: bv8, c: bv8, x: nat, y: nat)
    ensures Xor(Below(b, x), Below(c, y)) == Below(b ^ c, Xor(x, y))
  {
    hide Pow2, Xor, Raised, Nat, Below;
    var n := 8;
    BelowIs(b, x, n);
    BelowIs(c, y, n);
    BelowIs(b ^ c, Xor(x, y), n);
    XorLow(b, c, x, y, n);
  }

  /** Byte `n` of two words, on top of what their higher bytes make. */
  lemma XorNext(u: bv32, v: bv32, n: nat, x: nat, y: nat, z: nat)
    requires n < 4 && Xor(x, y) == z
    ensures Xor(Below(Words.ByteOf(u, n), x), Below(Words.ByteOf(v, n), y)) == Below(Words.ByteOf(u ^ v, n), z)
  {
    hide Xor, Words.ByteOf, Below;
    Words.ByteOfXor(u, v, n);
    XorByte(Words.ByteOf(u, n), Words.ByteOf(v, n), x, y);
  }

  /** The number that the bytes of a word from `n` on make. */
  function From(u: bv32, n: nat): nat
    requires n <= 4
    decreases 4 - n
  {
    if n == 4 then 0 else Below(Words.ByteOf(u, n), From(u, n + 1))
  }

  lemma {:induction false} XorFrom(u: bv32, v: bv32, n: nat)
    requires n <= 4
    ensures Xor(From(u, n), From(v, n)) == From(u ^ v, n)
    decreases 4 - n
  {
    hide Words.ByteOf, Below;
    if n < 4 {
      XorFrom(u, v, n + 1);
      XorNext(u, v, n, From(u, n + 1), From(v, n + 1), From(u ^ v, n + 1));
    }
  }

  lemma ValueFrom(u: bv32)
    ensures Value(u) == From(u, 0)
  {
    hide Words.ByteOf, Below;
    LastByte(Words.ByteOf(u, 3));
    assert From(u, 3) == Nat(Words.ByteOf(u, 3));
    assert From(u, 1) == Below(Words.ByteOf(u, 1), From(u, 2));
  }

  /** `Xor` is the machine's exclusive-or. */
  lemma XorIsMachine(u: bv32, v: bv32)
    ensures Xor(Value(u), Value(v)) == Value(u ^ v)
  {
    hide Xor, Value, From;
    ValueFrom(u);
    ValueFrom(v);
    ValueFrom(u ^ v);
    XorFrom(u, v, 0);
  }

  lemma LastByte(b: bv8)
    ensures Below(b, 0) == Nat(b)
  {
  }

  /* ---------- right shift ---------- */

  /** The byte that one shift leaves, `c` being the next higher byte. */
  function Shifted(b: bv8, c: bv8): bv8 {
    (b >> 1) | (c << 7)
  }

  lemma ShiftedValue(b: bv8, c: bv8)
    ensures Nat(Shifted(b, c)) == Nat(b) / 2 + 128 * (Nat(c) % 2)
  {
    Halves(b);
    Halves(c);
    TopBit(b);
    assert c & 1 == 0 || c & 1 == 1;
    assert Shifted(b, c) == if c & 1 == 0 then b >> 1 else (b >> 1) | 0x80;
  }

  lemma TopBit(b: bv8)
    ensures Nat((b >> 1) | 0x80) == Nat(b >> 1) + 128
  {
  }

  lemma ShiftByte(b: bv8, c: bv8, rest: nat)
    requires rest % 2 == Nat(c) % 2
    ensures Below(b, rest) / 2 == Below(Shifted(b, c), rest / 2) && Below(b, rest) % 2 == Nat(b) % 2
  {
    hide Shifted, Nat;
    ShiftedValue(b, c);
  }

  lemma ShiftBytes(u: bv32)
    ensures Words.ByteOf(u >> 1, 0) == Shifted(Words.ByteOf(u, 0), Words.ByteOf(u, 1)) && Words.ByteOf(u >> 1, 1) == Shifted(Words.ByteOf(u, 1), Words.ByteOf(u, 2))
    ensures Words.ByteOf(u >> 1, 2) == Shifted(Words.ByteOf(u, 2), Words.ByteOf(u, 3)) && Words.ByteOf(u >> 1, 3) == Shifted(Words.ByteOf(u, 3), 0)
  {
  }

  lemma HalfIsMachine(u: bv32)
    ensures Value(u) / 2 == Value(u >> 1)
  {
    hide Nat, Shifted, Words.ByteOf, Below;
    ShiftBytes(u);
    ZeroByte(0);
    var b3, b2, b1 := Words.ByteOf(u, 3), Words.ByteOf(u, 2), Words.ByteOf(u, 1);
    LastByte(b3);
    LastByte(Shifted(b3, 0));
    ShiftByte(b3, 0, 0);
    ShiftByte(b2, b3, Nat(b3));
    ShiftByte(b1, b2, Below(b2, Nat(b3)));
    ShiftByte(Words.ByteOf(u, 0), b1, Below(b1, Below(b2, Nat(b3))));
  }

  function ShiftRight(u: bv32, k: nat): bv32 {
    if k == 0 then u else ShiftRight(u >> 1, k - 1)
  }

  lemma {:induction false} ShrIsShiftRight(u: bv32, k: nat)
    ensures Shr(Value(u), k) == Value(ShiftRight(u, k))
  {
    hide Value;
    if k > 0 {
      HalfIsMachine(u);
      ShrIsShiftRight(u >> 1, k - 1);
    }
  }

  lemma Shift13(u: bv32, v: bv32, k: nat)
    requires k == 13 && v == u >> 13
    ensures v == ShiftRight(u, k)
  {
    assert ShiftRight(u >> 12, 1) == v;
    assert ShiftRight(u >> 10, 3) == v;
    assert ShiftRight(u >> 8, 5) == v;
    assert ShiftRight(u >> 6, 7) == v;
    assert ShiftRight(u >> 4, 9) == v;
    assert ShiftRight(u >> 2, 11) == v;
  }

  lemma Shift15(u: bv32, v: bv32, k: nat)
    requires k == 15 && v == u >> 15
    ensures v == ShiftRight(u, k)
  {
    Shift13(u >> 2, v, 13);
    assert ShiftRight(u >> 1, 14) == v;
  }

  lemma Shift16(u: bv32, v: bv32, k: nat)
    requires k == 16 && v == u >> 16
    ensures v == ShiftRight(u, k)
  {
    Shift15(u >> 1, v, 15);
  }

  lemma FoldIs(a: u32, b: u32, c: u32, k: nat)
    requires Shr(a, k) == b && Xor(a, b) == c
    ensures Fold(a, k) == c
  {
    hide Xor, Shr;
  }

  /** The generator's xor-shifts are the machine's. */
  lemma FoldIsMachine(u: bv32, s: bv32, w: bv32, k: nat)
    requires s == ShiftRight(u, k) && w == u ^ s
    ensures Fold(Value(u), k) == Value(w)
  {
    hide Fold, Xor, Shr, Value, ShiftRight;
    ShrIsShiftRight(u, k);
    XorIsMachine(u, s);
    FoldIs(Value(u), Value(s), Value(w), k);
  }

  lemma FoldBy13(u: bv32, s: bv32, w: bv32, k: nat)
    requires k == 13 && s == u >> 13 && w == u ^ s
    ensures Fold(Value(u), k) == Value(w)
  {
    hide Value, Fold, ShiftRight;
    Shift13(u, s, k);
    FoldIsMachine(u, s, w, k);
  }

  lemma FoldBy15(u: bv32, s: bv32, w: bv32, k: nat)
    requires k == 15 && s == u >> 15 && w == u ^ s
    ensures Fold(Value(u), k) == Value(w)
  {
    hide Value, Fold, ShiftRight;
    Shift15(u, s, k);
    FoldIsMachine(u, s, w, k);
  }

  lemma FoldBy16(u: bv32, s: bv32, w: bv32, k: nat)
    requires k == 16 && s == u >> 16 && w == u ^ s
    ensures Fold(Value(u), k) == Value(w)
  {
    hide Value, Fold, ShiftRight;
    Shift16(u, s, k);
    FoldIsMachine(u, s, w, k);
  }

  /** The mixer on machine words: `u'`, `v'` and `w'` are the xor-shifts of `u`, `v` and `w`. */
  lemma MixIsMachine(u: bv32, r: bv32, u': bv32, v: bv32, s: bv32, v': bv32, w: bv32, t: bv32, w': bv32)
    requires r == u >> 16 && u' == u ^ r && Value(v) == Wrap(Value(u') * 0x21f0_aaad)
    requires s == v >> 15 && v' == v ^ s && Value(w) == Wrap(Value(v') * 0x735a_2d97)
    requires t == w >> 15 && w' == w ^ t
    ensures Mix(Value(u)) == Value(w')
  {
    hide Value, Fold, Wrap;
    FoldBy16(u, r, u', 16);
    FoldBy15(v, s, v', 15);
    FoldBy15(w, t, w', 15);
  }

  /** The frame seed on machine words. */
  lemma SeedIsMachine(session: u32, key: bv32, seqno: u32, x: bv32, h: bv32, r: bv32, h': bv32, v: bv32, s: bv32, v': bv32)
    requires Value(key) == Wrap(Wrap(session + 1) * 0x9e37_79b1) && Value(x) == Wrap(seqno + 0x85eb_ca6b) && h == key ^ x
    requires r == h >> 13 && h' == h ^ r && Value(v) == Wrap(Value(h') * 0xc2b2_ae35)
    requires s == v >> 16 && v' == v ^ s
    ensures FrameSeed(session, seqno) == Value(v')
  {
    hide Value, Fold, Xor, Wrap;
    XorIsMachine(key, x);
    FoldBy13(h, r, h', 13);
    FoldBy16(v, s, v', 16);
  }
}
