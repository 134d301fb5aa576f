/** The wire-format generator (src/prng.rs): SplitMix32 and the per-frame seed.
    States are numbers below 2^32, sums and products wrap explicitly, and
    exclusive-or and right shift are defined bit by bit. */
module Prng {
  import opened Modular

  const GAMMA: nat := 0x9e37_79b9
  const GAMMA_INV: nat := 0x144c_bc89
  const MUL1: nat := 0x21f0_aaad
  const MUL1_INV: nat := 0x333c_4925
  const MUL2: nat := 0x735a_2d97
  const MUL2_INV: nat := 0x9713_2227
  const SEED_MUL: nat := 0xc2b2_ae35
  const SEED_MUL_INV: nat := 0x7ed1_b41d
  const SESSION_MUL: nat := 0x9e37_79b1
  const SESSION_MUL_INV: nat := 0x0e8b_2f51
  const SEQ_ADD: nat := 0x85eb_ca6b

  /* ---------- exclusive-or and shift ---------- */

  function Xor(a: nat, b: nat): nat {
    if a == 0 && b == 0 then 0 else 2 * Xor(a / 2, b / 2) + (a % 2 + b % 2) % 2
  }

  function Shr(a: nat, k: nat): nat {
    if k == 0 then a else Shr(a / 2, k - 1)
  }

  function Pow2(k: nat): (r: nat)
    ensures r > 0
  {
    if k == 0 then 1 else 2 * Pow2(k - 1)
  }

  lemma Pow2Of32()
    ensures Pow2(32) == MODULUS
  {
    assert Pow2(8) == 0x100;
    assert Pow2(16) == 0x1_0000;
    assert Pow2(24) == 0x100_0000;
  }

  lemma {:induction false} XorBound(a: nat, b: nat, k: nat)
    requires a < Pow2(k) && b < Pow2(k)
    ensures Xor(a, b) < Pow2(k)
  {
    if k > 0 { XorBound(a / 2, b / 2, k - 1); }
  }

  lemma {:induction false} XorComm(a: nat, b: nat)
    ensures Xor(a, b) == Xor(b, a)
  {
    if a != 0 || b != 0 { XorComm(a / 2, b / 2); }
  }

  /** The low bit and the remaining bits of an exclusive-or. */
  lemma XorBits(a: nat, b: nat)
    ensures Xor(a, b) % 2 == (a % 2 + b % 2) % 2 && Xor(a, b) / 2 == Xor(a / 2, b / 2)
  {
  }

  lemma LowBits(a: nat, b: nat, c: nat)
    ensures Xor(Xor(a, b), c) % 2 == (a % 2 + b % 2 + c % 2) % 2
  {
    XorBits(a, b);
    XorBits(Xor(a, b), c);
    ParityAdd(a % 2 + b % 2, c % 2);
  }

  lemma ParityAdd(x: nat, y: nat)
    ensures (x % 2 + y) % 2 == (x + y) % 2
  {
  }

  lemma HighBits(a: nat, b: nat, c: nat)
    ensures Xor(Xor(a, b), c) / 2 == Xor(Xor(a / 2, b / 2), c / 2)
  {
    XorBits(a, b);
    XorBits(Xor(a, b), c);
  }

  lemma {:induction false} XorAssoc(a: nat, b: nat, c: nat)
    ensures Xor(Xor(a, b), c) == Xor(a, Xor(b, c))
  {
    if a != 0 || b != 0 || c != 0 {
      XorComm(a, Xor(b, c));
      XorComm(a / 2, Xor(b / 2, c / 2));
      XorAssoc(a / 2, b / 2, c / 2);
      HighBits(a, b, c);
      HighBits(b, c, a);
      LowBits(a, b, c);
      LowBits(b, c, a);
    }
  }

  lemma {:induction false} XorSelf(a: nat)
    ensures Xor(a, a) == 0
  {
    if a != 0 { XorSelf(a / 2); }
  }

  lemma {:induction false} XorZero(a: nat)
    ensures Xor(a, 0) == a
  {
    if a != 0 { XorZero(a / 2); }
  }

  lemma XorCancel(a: nat, b: nat)
    ensures Xor(Xor(a, b), b) == a
  {
    XorAssoc(a, b, b);
    XorSelf(b);
    XorZero(a);
  }

  lemma {:induction false} ShrXor(a: nat, b: nat, k: nat)
    ensures Shr(Xor(a, b), k) == Xor(Shr(a, k), Shr(b, k))
  {
    if k > 0 {
      XorBits(a, b);
      ShrXor(a / 2, b / 2, k - 1);
    }
  }

  lemma {:induction false} ShrShr(a: nat, j: nat, k: nat)
    ensures Shr(Shr(a, j), k) == Shr(a, j + k)
  {
    if j > 0 { ShrShr(a / 2, j - 1, k); }
  }

  lemma {:induction false} ShrBound(a: nat, k: nat)
    ensures Shr(a, k) <= a
    ensures a < Pow2(k) ==> Shr(a, k) == 0
  {
    if k > 0 { ShrBound(a / 2, k - 1); }
  }

  lemma ShrGone(a: u32, k: nat)
    requires k >= 32
    ensures Shr(a, k) == 0
  {
    Pow2Of32();
    ShrBound(a, 32);
    ShrShr(a, 32, k - 32);
    ShrBound(0, k - 32);
  }

  lemma XorU32(a: u32, b: u32)
    ensures Xor(a, b) < MODULUS
  {
    Pow2Of32();
    XorBound(a, b, 32);
  }

  /* ---------- the xor-shift x ^ (x >> k) and its inverse ---------- */

  function Fold(a: u32, k: nat): u32 {
    ShrBound(a, k);
    XorU32(a, Shr(a, k));
    Xor(a, Shr(a, k))
  }

  /** Inverse of `Fold` for shifts of at least 11 bits: three terms suffice below 2^32. */
  function Unfold(a: u32, k: nat): u32 {
    ShrBound(a, k);
    ShrBound(a, 2 * k);
    XorU32(a, Shr(a, k));
    XorU32(Xor(a, Shr(a, k)), Shr(a, 2 * k));
    Xor(Xor(a, Shr(a, k)), Shr(a, 2 * k))
  }

  lemma FoldInverse(a: u32, k: nat)
    requires k >= 11
    ensures Unfold(Fold(a, k), k) == a && Fold(Unfold(a, k), k) == a
  {
    var b, c := Shr(a, k), Shr(a, 2 * k);
    ShrShr(a, k, k);
    ShrShr(a, k, 2 * k);
    ShrShr(a, 2 * k, k);
    ShrGone(a, 3 * k);
    XorZero(c);
    XorZero(b);
    // unfold after fold: (a ^ b) ^ (b ^ c) ^ c
    ShrXor(a, b, k);
    ShrXor(a, b, 2 * k);
    XorAssoc(Xor(a, b), b, c);
    XorCancel(a, b);
    XorAssoc(Xor(Xor(a, b), b), c, 0);
    XorAssoc(Xor(a, b), Xor(b, c), c);
    XorCancel(b, c);
    // fold after unfold: (a ^ b ^ c) ^ (b ^ c)
    ShrXor(Xor(a, b), c, k);
    XorAssoc(a, b, c);
    XorCancel(a, Xor(b, c));
    XorZero(Xor(b, c));
  }

  /* ---------- the output function ---------- */

  function Mix(state: u32): u32 {
    Fold(Wrap(Fold(Wrap(Fold(state, 16) * MUL1), 15) * MUL2), 15)
  }

  function Unmix(v: u32): u32 {
    Unfold(Wrap(Unfold(Wrap(Unfold(v, 15) * MUL2_INV), 15) * MUL1_INV), 16)
  }

  lemma Inverses()
    ensures Inverse(GAMMA, GAMMA_INV, MODULUS) && Inverse(GAMMA_INV, GAMMA, MODULUS)
    ensures Inverse(MUL1, MUL1_INV, MODULUS) && Inverse(MUL1_INV, MUL1, MODULUS)
    ensures Inverse(MUL2, MUL2_INV, MODULUS) && Inverse(MUL2_INV, MUL2, MODULUS)
    ensures Inverse(SEED_MUL, SEED_MUL_INV, MODULUS) && Inverse(SEED_MUL_INV, SEED_MUL, MODULUS)
    ensures Inverse(SESSION_MUL, SESSION_MUL_INV, MODULUS) && Inverse(SESSION_MUL_INV, SESSION_MUL, MODULUS)
  {
    assert SESSION_MUL * SESSION_MUL_INV == 1 + (SESSION_MUL * SESSION_MUL_INV / MODULUS) * MODULUS;
    assert GAMMA * GAMMA_INV == 1 + (GAMMA * GAMMA_INV / MODULUS) * MODULUS;
    assert MUL1 * MUL1_INV == 1 + (MUL1 * MUL1_INV / MODULUS) * MODULUS;
    assert MUL2 * MUL2_INV == 1 + (MUL2 * MUL2_INV / MODULUS) * MODULUS;
    assert SEED_MUL * SEED_MUL_INV == 1 + (SEED_MUL * SEED_MUL_INV / MODULUS) * MODULUS;
  }

  /** The mixer is a bijection on the numbers below 2^32. */
  lemma MixBijective(v: u32)
    ensures Mix(Unmix(v)) == v && Unmix(Mix(v)) == v
  {
    Inverses();
    var a := Unfold(v, 15);
    var b := Wrap(a * MUL2_INV);
    var c := Unfold(b, 15);
    var d := Wrap(c * MUL1_INV);
    FoldInverse(v, 15);
    WrapInverse(a, MUL2_INV, MUL2);
    FoldInverse(b, 15);
    WrapInverse(c, MUL1_INV, MUL1);
    FoldInverse(d, 16);
    var e := Fold(v, 16);
    var f := Wrap(e * MUL1);
    var g := Fold(f, 15);
    var h := Wrap(g * MUL2);
    FoldInverse(v, 16);
    WrapInverse(e, MUL1, MUL1_INV);
    FoldInverse(f, 15);
    WrapInverse(g, MUL2, MUL2_INV);
    FoldInverse(h, 15);
  }

  /* ---------- the frame seed ---------- */

  /** What a session contributes to the seeds of its frames. */
  function SessionKey(session: u32): u32 {
    Wrap(Wrap(session + 1) * SESSION_MUL)
  }

  function FrameSeed(session: u32, seqno: u32): u32 {
    var key := SessionKey(session);
    var x := Wrap(seqno + SEQ_ADD);
    XorU32(key, x);
    Fold(Wrap(Fold(Xor(key, x), 13) * SEED_MUL), 16)
  }

  /** For a fixed session the seed determines the sequence number: no two frames start from the
      same generator state. */
  lemma FrameSeedInjective(session: u32, s: u32, t: u32)
    requires FrameSeed(session, s) == FrameSeed(session, t)
    ensures s == t
  {
    var key := SessionKey(session);
    SeedTail(key, Wrap(s + SEQ_ADD));
    SeedTail(key, Wrap(t + SEQ_ADD));
    ShiftInjective(s, t);
  }

  /** What undoes the steps after the addition. */
  lemma SeedTail(key: u32, x: u32)
    ensures Xor(key, x) < MODULUS
    ensures var seed := Fold(Wrap(Fold(Xor(key, x), 13) * SEED_MUL), 16);
            Xor(Unfold(Wrap(Unfold(seed, 16) * SEED_MUL_INV), 13), key) == x
  {
    XorU32(key, x);
    var h := Xor(key, x);
    Inverses();
    FoldInverse(h, 13);
    WrapInverse(Fold(h, 13), SEED_MUL, SEED_MUL_INV);
    FoldInverse(Wrap(Fold(h, 13) * SEED_MUL), 16);
    XorComm(key, x);
    XorCancel(x, key);
  }

  lemma ShiftInjective(s: u32, t: u32)
    requires Wrap(s + SEQ_ADD) == Wrap(t + SEQ_ADD)
    ensures s == t
  {
  }

  /** The sequence number whose frame starts from a given generator state. */
  function SeqWithSeed(session: u32, seed: u32): u32 {
    var key := SessionKey(session);
    var h := Unfold(Wrap(Unfold(seed, 16) * SEED_MUL_INV), 13);
    XorU32(h, key);
    Wrap(Xor(h, key) - SEQ_ADD)
  }

  /** Every generator state belongs to some frame: with injectivity, the seed is a bijection of the sequence numbers. */
  lemma FrameSeedOnto(session: u32, seed: u32)
    ensures FrameSeed(session, SeqWithSeed(session, seed)) == seed
  {
    hide Xor, Fold, Unfold, Inverse;
    var key := SessionKey(session);
    var h2 := Unfold(seed, 16);
    var h1 := Wrap(h2 * SEED_MUL_INV);
    var h0 := Unfold(h1, 13);
    XorU32(h0, key);
    var x := Xor(h0, key);
    Inverses();
    FoldInverse(seed, 16);
    WrapInverse(h2, SEED_MUL_INV, SEED_MUL);
    FoldInverse(h1, 13);
    XorComm(key, x);
    XorCancel(h0, key);
    WrapBack(x, SEQ_ADD);
  }

  /** The session whose frame `seqno` starts from a given generator state. */
  function SessionWithSeed(seqno: u32, seed: u32): u32 {
    var h := Unfold(Wrap(Unfold(seed, 16) * SEED_MUL_INV), 13);
    var x := Wrap(seqno + SEQ_ADD);
    XorU32(h, x);
    Wrap(Wrap(Xor(h, x) * SESSION_MUL_INV) - 1)
  }

  /** For a fixed sequence number the seed determines the session: every frame of a fresh session starts from
      another generator state. */
  lemma SessionsReshuffle(s: u32, t: u32, seqno: u32)
    requires FrameSeed(s, seqno) == FrameSeed(t, seqno)
    ensures s == t
  {
    SessionBack(s, seqno);
    SessionBack(t, seqno);
  }

  lemma SessionBack(session: u32, seqno: u32)
    ensures SessionWithSeed(seqno, FrameSeed(session, seqno)) == session
  {
    hide Fold, Unfold, Inverse, Xor;
    var key, x := SessionKey(session), Wrap(seqno + SEQ_ADD);
    XorU32(key, x);
    var h := Xor(key, x);
    Inverses();
    FoldInverse(h, 13);
    WrapInverse(Fold(h, 13), SEED_MUL, SEED_MUL_INV);
    FoldInverse(Wrap(Fold(h, 13) * SEED_MUL), 16);
    XorCancel(key, x);
    WrapInverse(Wrap(session + 1), SESSION_MUL, SESSION_MUL_INV);
  }

  /** And every generator state belongs to some session. */
  lemma SessionsOnto(seqno: u32, seed: u32)
    ensures FrameSeed(SessionWithSeed(seqno, seed), seqno) == seed
  {
    hide Xor, Fold, Unfold, Inverse;
    var x := Wrap(seqno + SEQ_ADD);
    var h2 := Unfold(seed, 16);
    var h1 := Wrap(h2 * SEED_MUL_INV);
    var h0 := Unfold(h1, 13);
    XorU32(h0, x);
    var key := Xor(h0, x);
    Inverses();
    WrapInverse(key, SESSION_MUL_INV, SESSION_MUL);
    WrapBack(Wrap(key * SESSION_MUL_INV), 1);
    XorCancel(h0, x);
    FoldInverse(h1, 13);
    WrapInverse(h2, SEED_MUL_INV, SEED_MUL);
    FoldInverse(seed, 16);
  }

  lemma WrapBack(x: u32, c: nat)
    ensures Wrap(Wrap(x - c) + c) == x
  {
    WrapAdd(x - c, c);
  }

  /** The frame whose first draw is `t`. */
  function SeqWithDraw(session: u32, t: u32): u32 {
    SeqWithSeed(session, Wrap(Unmix(t) - GAMMA))
  }

  /** For each session, every value is the first draw of some frame. */
  lemma FirstDraw(session: u32, t: u32)
    ensures TapeOf(FrameSeed(session, SeqWithDraw(session, t)))(0) == t
  {
    hide Mix, Unmix, FrameSeed, SeqWithSeed;
    var seed := Wrap(Unmix(t) - GAMMA);
    FrameSeedOnto(session, seed);
    WrapBack(Unmix(t), GAMMA);
    MixBijective(t);
  }

  /* ---------- the full cycle ---------- */

  /** The state after `n` more draws. */
  function StateAfter(state: u32, n: nat): u32 {
    Wrap(state + n * GAMMA)
  }

  /** Output number `n`, counting from 0, of a generator in `state`. */
  function Draw(state: u32, n: nat): u32 {
    Mix(StateAfter(state, n + 1))
  }

  /** How many steps lead from state `s` to state `t`, modulo 2^32. */
  function StepCount(s: u32, t: u32): u32 {
    Wrap(Wrap(t - s) * GAMMA_INV)
  }

  /** How many draws come before the value `v`. */
  function Wait(state: u32, v: u32): u32 {
    Wrap(StepCount(state, Unmix(v)) - 1)
  }

  /** Stepping is translation by an odd constant: `n` steps lead from `s` to `t` for exactly one `n`
      modulo 2^32. */
  lemma StepsTo(s: u32, t: u32, n: nat)
    ensures StateAfter(s, n) == t <==> Wrap(n) == StepCount(s, t)
  {
    Inverses();
    var d := Wrap(t - s);
    ShiftBy(s, n * GAMMA, t);
    CancelInverse(d, GAMMA_INV, GAMMA, MODULUS);
    CancelInverse(n, GAMMA, GAMMA_INV, MODULUS);
    if Wrap(n) == Wrap(d * GAMMA_INV) {
      ProductMod(n, GAMMA);
    }
  }

  lemma ShiftBy(s: u32, x: int, t: u32)
    ensures Wrap(s + x) == t <==> Wrap(x) == Wrap(t - s)
  {
  }

  lemma ProductMod(x: int, c: nat)
    ensures Wrap(Wrap(x) * c) == Wrap(x * c)
  {
    var q := x / MODULUS;
    assert x == MODULUS * q + Wrap(x);
    assert x * c == MODULUS * (q * c) + Wrap(x) * c;
    ModAddMultiple(Wrap(x) * c, q * c, MODULUS);
  }

  /** Among any 2^32 consecutive draws every 32-bit value comes up exactly once. */
  lemma FullCycle(state: u32, v: u32, n: u32)
    ensures Draw(state, n) == v <==> n == Wait(state, v)
  {
    hide Mix, Unmix, StateAfter, StepCount;
    MixHits(StateAfter(state, n + 1), v);
    FirstReach(state, Unmix(v), n);
  }

  lemma FirstReach(s: u32, t: u32, n: u32)
    ensures StateAfter(s, n + 1) == t <==> n == Wrap(StepCount(s, t) - 1)
  {
    StepsTo(s, t, n + 1);
    BackOne(n, StepCount(s, t));
  }

  lemma MixHits(state: u32, v: u32)
    ensures Mix(state) == v <==> state == Unmix(v)
  {
    MixBijective(v);
    MixBijective(state);
  }

  lemma BackOne(n: u32, x: u32)
    ensures Wrap(n + 1) == x <==> n == Wrap(x - 1)
  {
  }

  lemma StateAfterAdd(state: u32, m: nat, n: nat)
    ensures StateAfter(StateAfter(state, m), n) == StateAfter(state, m + n)
  {
    WrapAdd(state + m * GAMMA, n * GAMMA);
    assert state + m * GAMMA + n * GAMMA == state + (m + n) * GAMMA;
  }

  lemma DrawAdd(state: u32, m: nat, n: nat)
    ensures Draw(StateAfter(state, m), n) == Draw(state, m + n)
  {
    StateAfterAdd(state, m, n + 1);
  }

  lemma DrawFirst(state: u32)
    ensures Draw(state, 0) == Mix(Wrap(state + GAMMA)) && StateAfter(state, 1) == Wrap(state + GAMMA)
  {
  }

  /* ---------- the output stream ---------- */

  /** The outputs still to come, by position. */
  type Tape = nat -> u32

  function TapeOf(seed: u32): Tape {
    n => Draw(seed, n)
  }

  ghost predicate Agrees(tape: Tape, p: nat, state: u32, n: nat) {
    tape(p + n) == Draw(state, n)
  }

  ghost predicate HitsWithin(tape: Tape, p: nat, v: u32, n: nat) {
    exists q :: p <= q < p + n && tape(q) == v
  }

  /** From every position on, every 32-bit value comes up within 2^32 draws. */
  ghost predicate Covers(tape: Tape) {
    forall p: nat, v: u32 :: HitsWithin(tape, p, v, MODULUS)
  }

  lemma TapeCovers(seed: u32)
    ensures Covers(TapeOf(seed))
  {
    forall p: nat, v: u32 ensures HitsWithin(TapeOf(seed), p, v, MODULUS) {
      var n := Hit(seed, p, v);
      assert TapeOf(seed)(p + n) == v;
    }
  }

  lemma Hit(seed: u32, p: nat, v: u32) returns (n: u32)
    ensures Draw(seed, p + n) == v
  {
    n := Wait(StateAfter(seed, p), v);
    FullCycle(StateAfter(seed, p), v, n);
    DrawAdd(seed, p, n);
  }

  /** Draws before the first `v` from position `p` on, searching `n` positions. */
  ghost function Countdown(tape: Tape, p: nat, v: u32, n: nat): nat
    decreases n
  {
    if n == 0 || tape(p) == v then 0 else 1 + Countdown(tape, p + 1, v, n - 1)
  }

  lemma {:induction false} CountdownStable(tape: Tape, p: nat, v: u32, n: nat)
    requires HitsWithin(tape, p, v, n)
    ensures Countdown(tape, p, v, n) == Countdown(tape, p, v, n + 1)
    decreases n
  {
    if tape(p) != v {
      CountdownStable(tape, p + 1, v, n - 1);
    }
  }

  /** Until `v` comes up, each draw brings it one closer. */
  lemma CountdownStep(tape: Tape, p: nat, v: u32)
    requires Covers(tape) && tape(p) != v
    ensures Countdown(tape, p + 1, v, MODULUS) < Countdown(tape, p, v, MODULUS)
  {
    assert HitsWithin(tape, p, v, MODULUS);
    CountdownStable(tape, p + 1, v, MODULUS - 1);
  }

  /* ---------- the generator object ---------- */

  class SplitMix32 {
    var state: u32

    /** The outputs to come are those of `tape` from position `p` on. */
    ghost predicate Follows(tape: Tape, p: nat)
      reads this
    {
      forall n: nat :: Agrees(tape, p, state, n)
    }

    constructor (seed: u32)
      ensures state == seed && Follows(TapeOf(seed), 0)
    {
      state := seed;
    }

    method NextU32(ghost tape: Tape, ghost p: nat) returns (t: u32)
      requires Follows(tape, p)
      modifies this
      ensures t == tape(p) && Follows(tape, p + 1)
    {
      ghost var before := state;
      state := Wrap(state + GAMMA);
      t := Output(state);
      DrawFirst(before);
      assert Agrees(tape, p, before, 0);
      ghost var next := p + 1;
      forall n: nat ensures Agrees(tape, next, state, n) {
        DrawAdd(before, 1, n);
        assert Agrees(tape, p, before, 1 + n);
      }
    }

    static method Output(state: u32) returns (t: u32)
      ensures t == Mix(state)
    {
      t := Fold(state, 16);
      t := Wrap(t * MUL1);
      t := Fold(t, 15);
      t := Wrap(t * MUL2);
      t := Fold(t, 15);
    }

    method NextBounded(bound: nat, ghost tape: Tape, ghost p: nat) returns (v: nat)
      requires Follows(tape, p)
      modifies this
      ensures if bound == 0 then v == 0 && Follows(tape, p)
              else v == Rem(tape(p), bound) && Follows(tape, p + 1)
    {
      if bound == 0 {
        v := 0;
      } else {
        var t := NextU32(tape, p);
        RemIsMod(t, bound);
        v := t % bound;
      }
    }
  }
}
