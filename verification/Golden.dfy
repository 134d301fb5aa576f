/** The subsets that tests/golden.rs pins, computed in the model: the generator, the degree table and the selection
    together give exactly those blocks. */
module Golden {
  import opened Modular
  import opened Sets
  import opened Prng
  import opened MachineWords
  import opened Soliton
  import opened Selection

  /* ---------- the generator ---------- */

  const SESSION: u32 := 4242

  lemma Seeds()
    ensures FrameSeed(SESSION, 0) == 0xf4c5_8b08
    ensures FrameSeed(SESSION, 1) == 0xc242_2494
    ensures FrameSeed(SESSION, 2) == 0x84f5_11fe
    ensures FrameSeed(SESSION, 41) == 0x312f_43d1
    ensures FrameSeed(SESSION, 1000) == 0x92f6_02c3
  {
    hide FrameSeed;
    SeedIsMachine(SESSION, 0x5175_f0a3, 0, 0x85eb_ca6b, 0xd49e_3ac8, 0x6_a4f1, 0xd498_9e39, 0xf4c5_7fcd, 0xf4c5, 0xf4c5_8b08);
    SeedIsMachine(SESSION, 0x5175_f0a3, 1, 0x85eb_ca6c, 0xd49e_3acf, 0x6_a4f1, 0xd498_9e3e, 0xc242_e6d6, 0xc242, 0xc242_2494);
    SeedIsMachine(SESSION, 0x5175_f0a3, 2, 0x85eb_ca6d, 0xd49e_3ace, 0x6_a4f1, 0xd498_9e3f, 0x84f5_950b, 0x84f5, 0x84f5_11fe);
    SeedIsMachine(SESSION, 0x5175_f0a3, 41, 0x85eb_ca94, 0xd49e_3a37, 0x6_a4f1, 0xd498_9ec6, 0x312f_72fe, 0x312f, 0x312f_43d1);
    SeedIsMachine(SESSION, 0x5175_f0a3, 1000, 0x85eb_ce53, 0xd49e_3ef0, 0x6_a4f1, 0xd498_9a01, 0x92f6_9035, 0x92f6, 0x92f6_02c3);
  }

  lemma FirstDraws0()
    ensures Draw(0xf4c5_8b08, 0) == 0x205c_52c0 && Draw(0xf4c5_8b08, 1) == 0x98a2_abd7
  {
    hide Mix;
    MixIsMachine(0x92fd_04c1, 0x92fd, 0x92fd_963c, 0x4f62_5e8c, 0x9ec4, 0x4f62_c048, 0x205c_1278, 0x40b8, 0x205c_52c0);
    MixIsMachine(0x3134_7e7a, 0x3134, 0x3134_4f4e, 0x6423_63b6, 0xc846, 0x6423_abf0, 0x98a3_9a90, 0x1_3147, 0x98a2_abd7);
  }

  lemma MoreDraws0()
    ensures Draw(0xf4c5_8b08, 2) == 0xebe2_9fc1
  {
    hide Mix;
    MixIsMachine(0xcf6b_f833, 0xcf6b, 0xcf6b_3758, 0x98b4_d678, 0x1_3169, 0x98b5_e711, 0xebe3_4807, 0x1_d7c6, 0xebe2_9fc1);
  }

  lemma FirstDraws1()
    ensures Draw(0xc242_2494, 0) == 0x3d41_9a15 && Draw(0xc242_2494, 1) == 0x2b97_417f
  {
    hide Mix;
    MixIsMachine(0x6079_9e4d, 0x6079, 0x6079_fe34, 0x39ff_5124, 0x73fe, 0x39ff_22da, 0x3d41_e096, 0x7a83, 0x3d41_9a15);
    MixIsMachine(0xfeb1_1806, 0xfeb1, 0xfeb1_e6b7, 0x23fe_6fab, 0x47fc, 0x23fe_2857, 0x2b97_1651, 0x572e, 0x2b97_417f);
  }

  lemma MoreDraws1()
    ensures Draw(0xc242_2494, 2) == 0xaff0_321c
  {
    hide Mix;
    MixIsMachine(0x9ce8_91bf, 0x9ce8, 0x9ce8_0d57, 0xda3c_c9cb, 0x1_b479, 0xda3d_7db2, 0xaff1_6dfe, 0x1_5fe2, 0xaff0_321c);
  }

  lemma FirstDraws2()
    ensures Draw(0x84f5_11fe, 0) == 0x478d_cba0 && Draw(0x84f5_11fe, 1) == 0x5a2f_8f97
  {
    hide Mix;
    MixIsMachine(0x232c_8bb7, 0x232c, 0x232c_a89b, 0x7974_debf, 0xf2e9, 0x7974_2c56, 0x478d_44ba, 0x8f1a, 0x478d_cba0);
    MixIsMachine(0xc164_0570, 0xc164, 0xc164_c414, 0x20d_c984, 0x41b, 0x20d_cd9f, 0x5a2f_3bc9, 0xb45e, 0x5a2f_8f97);
  }

  lemma MoreDraws2()
    ensures Draw(0x84f5_11fe, 2) == 0x83c1_2b84 && Draw(0x84f5_11fe, 3) == 0x25ca_ab17
  {
    hide Mix;
    MixIsMachine(0x5f9b_7f29, 0x5f9b, 0x5f9b_20b2, 0x386b_4c4a, 0x70d6, 0x386b_3c9c, 0x83c0_2c04, 0x1_0780, 0x83c1_2b84);
    MixIsMachine(0xfdd2_f8e2, 0xfdd2, 0xfdd2_0530, 0xb5f_6170, 0x16be, 0xb5f_77ce, 0x25ca_e082, 0x4b95, 0x25ca_ab17);
  }

  lemma FirstDraws41()
    ensures Draw(0x312f_43d1, 0) == 0x890b_6a68 && Draw(0x312f_43d1, 1) == 0xa747_b0e6
  {
    hide Mix;
    MixIsMachine(0xcf66_bd8a, 0xcf66, 0xcf66_72ec, 0x59cc_617c, 0xb398, 0x59cc_d2e4, 0x890a_787c, 0x1_1214, 0x890b_6a68);
    MixIsMachine(0x6d9e_3743, 0x6d9e, 0x6d9e_5add, 0xe88a_2959, 0x1_d114, 0xe88b_f84d, 0xa746_fe6b, 0x1_4e8d, 0xa747_b0e6);
  }

  lemma MoreDraws41()
    ensures Draw(0x312f_43d1, 2) == 0xeae0_29bf && Draw(0x312f_43d1, 3) == 0x3d3a_b3c1
  {
    hide Mix;
    MixIsMachine(0xbd5_b0fc, 0xbd5, 0xbd5_bb29, 0xad28_b4b5, 0x1_5a51, 0xad29_eee4, 0xeae1_fc7c, 0x1_d5c3, 0xeae0_29bf);
    MixIsMachine(0xaa0d_2ab5, 0xaa0d, 0xaa0d_80b8, 0x471a_2c58, 0x8e34, 0x471a_a26c, 0x3d3a_c9b4, 0x7a75, 0x3d3a_b3c1);
  }

  lemma FirstDraws1000()
    ensures Draw(0x92f6_02c3, 0) == 0x8a4a_7ba7 && Draw(0x92f6_02c3, 1) == 0xcb36_7197
  {
    hide Mix;
    MixIsMachine(0x312d_7c7c, 0x312d, 0x312d_4d51, 0x3de5_09bd, 0x7bca, 0x3de5_7277, 0x8a4b_6f31, 0x1_1496, 0x8a4a_7ba7);
    MixIsMachine(0xcf64_f635, 0xcf64, 0xcf64_3951, 0xe1ba_85bd, 0x1_c375, 0xe1bb_46c8, 0xcb37_e7f8, 0x1_966f, 0xcb36_7197);
  }

  lemma MoreDraws1000()
    ensures Draw(0x92f6_02c3, 2) == 0x5e40_4c31 && Draw(0x92f6_02c3, 3) == 0x73be_bbb6
  {
    hide Mix;
    MixIsMachine(0x6d9c_6fee, 0x6d9c, 0x6d9c_0272, 0xa8ed_5b0a, 0x1_51da, 0xa8ec_0ad0, 0x5e40_f0b0, 0xbc81, 0x5e40_4c31);
    MixIsMachine(0xbd3_e9a7, 0xbd3, 0xbd3_e274, 0xf351_1064, 0x1_e6a2, 0xf350_f6c6, 0x73be_5cca, 0xe77c, 0x73be_bbb6);
  }

  /* ---------- from draws to blocks ---------- */

  ghost predicate Drawn(q: u32, n: nat, t: u32) {
    Draw(FrameSeed(SESSION, q), n) == t
  }

  /** The degree of frame `q`, from its first draw. */
  lemma DegreeOf(cdf: seq<real>, q: u32, t: u32, d: nat)
    requires IsCdf(cdf) && |cdf| < MODULUS && Drawn(q, 0, t)
    requires 0 < d <= |cdf| && (d > 1 ==> cdf[d - 2] < t as real / 4294967296.0) && t as real / 4294967296.0 <= cdf[d - 1]
    ensures |IndicesFrom(cdf, SESSION, q)| == d
  {
    hide FrameSeed, Draw, Covers, IndicesOnTape;
    FrameSubset(cdf, SESSION, q);
    SubsetOnTape(cdf, TapeOf(FrameSeed(SESSION, q)));
  }

  lemma Blocks(cdf: seq<real>, q: u32) returns (tape: Tape, r: seq<nat>)
    requires IsCdf(cdf) && |cdf| < MODULUS
    ensures r == IndicesFrom(cdf, SESSION, q) && |r| > 0 && Distinct(r) && |r| <= |cdf|
    ensures Covers(tape) && r == Selected(|cdf|, |r|, tape, 1) && r[0] == tape(1) % |cdf|
    ensures forall n: nat, t: u32 :: Drawn(q, n, t) ==> tape(n) == t
  {
    hide FrameSeed, Draw, Covers, IndicesOnTape, Selected;
    tape, r := TapeOf(FrameSeed(SESSION, q)), IndicesFrom(cdf, SESSION, q);
    FrameSubset(cdf, SESSION, q);
    SubsetOnTape(cdf, tape);
  }

  lemma One(cdf: seq<real>, q: u32, t: u32, b: nat)
    requires IsCdf(cdf) && |cdf| < MODULUS && |IndicesFrom(cdf, SESSION, q)| == 1 && Drawn(q, 1, t) && b == t % |cdf|
    ensures IndicesFrom(cdf, SESSION, q) == [b]
  {
    hide Drawn, Covers, Selected, IndicesFrom;
    var tape, r := Blocks(cdf, q);
  }

  /** Two blocks of seventeen: the sparse branch. */
  lemma Two(cdf: seq<real>, q: u32, t: u32, u: u32, v: u32, a: nat, b: nat)
    requires IsCdf(cdf) && |cdf| == 17 && |IndicesFrom(cdf, SESSION, q)| == 2
    requires Drawn(q, 1, t) && Drawn(q, 2, u) && (u % 17 == t % 17 ==> Drawn(q, 3, v))
    requires a == t % 17 && b == (if u % 17 == a then v % 17 else u % 17) && a != b
    ensures IndicesFrom(cdf, SESSION, q) == [a, b]
  {
    hide Drawn, Covers, Selected, IndicesFrom, IsCdf;
    var tape, r := Blocks(cdf, q);
    SparseExactlyWhen(17, 2, tape, 1, [a, b]);
    assert FirstSeen([a, b], 17, tape, 1, 0, 1);
    assert FirstSeen([a, b], 17, tape, 1, 1, if u % 17 == a then 3 else 2);
  }

  /** Three blocks of seventeen: the dense branch. */
  lemma Three(cdf: seq<real>, q: u32, t: u32, u: u32, v: u32)
    requires IsCdf(cdf) && |cdf| == 17 && |IndicesFrom(cdf, SESSION, q)| == 3
    requires Drawn(q, 1, t) && Drawn(q, 2, u) && Drawn(q, 3, v)
    requires t % 17 > 1 && 1 + u % 16 != t % 17 && 2 + v % 15 != 1 + u % 16 && 2 + v % 15 != t % 17
    ensures IndicesFrom(cdf, SESSION, q) == [t % 17, 1 + u % 16, 2 + v % 15]
  {
    hide Drawn, Covers, Selected, IndicesFrom, IsCdf, Origin;
    var tape, r := Blocks(cdf, q);
    var a, b, c := t % 17, 1 + u % 16, 2 + v % 15;
    DenseEntry(17, 3, tape, 1, 1);
    DenseEntry(17, 3, tape, 1, 2);
    Untouched(tape, a, b, c);
    assert r[1] == b && r[2] == c;
    assert r == [a, b, c];
  }

  /** The cards drawn at the first three steps, when none of them has been moved before. */
  lemma Untouched(tape: Tape, a: nat, b: nat, c: nat)
    requires tape(1) % 17 == a && 1 + tape(2) % 16 == b && 1 < a && b != a && c != b && c != a
    ensures Origin(17, tape, 1, 1, b) == b && Origin(17, tape, 1, 2, c) == c
  {
    assert Origin(17, tape, 1, 1, c) == c;
  }

  /* ---------- the degree tables ---------- */

  /** Entry `d - 1` of a table, times `total`. */
  function Upto(c: seq<real>, total: real, d: nat): real
    requires 1 <= d <= |c|
  {
    c[d - 1] * total
  }

  lemma NextMass(c: seq<real>, total: real, d: nat, mass: real)
    requires 1 < d <= |c| && MassOf(c, total, d) == mass
    ensures Upto(c, total, d) == Upto(c, total, d - 1) + mass
  {
    assert (c[d - 1] - c[d - 2]) * total == c[d - 1] * total - c[d - 2] * total;
  }

  /** Two blocks: with ln 2 below 0.7, degree 1 has a mass above 0.54. */
  lemma TableOfTwo(m: Libm)
    requires IsRipple(m, 2, 1.0) && m.dlog(2.0) < 0.7
    ensures IsCdf(Cdf(m, 2)) && Cdf(m, 2)[0] > 0.5404
  {
    hide Cdf, MassOf, Upto;
    var c := Cdf(m, 2);
    CdfIsDistribution(m, 2);
    var total := RobustSoliton(m, 2, 1.0, 2);
    First(c, total);
    Last(c, total);
    NextMass(c, total, 2, MassOf(c, total, 2));
    assert total == 1.0 + MassOf(c, total, 2);
    AboveFrom(c, total, 1, 1.8503, 0.5404);
  }

  lemma First(c: seq<real>, total: real)
    requires |c| > 0
    ensures Upto(c, total, 1) == MassOf(c, total, 1)
  {
  }

  lemma Last(c: seq<real>, total: real)
    requires |c| > 0 && c[|c| - 1] == 1.0
    ensures Upto(c, total, |c|) == total
  {
  }

  lemma AboveFrom(c: seq<real>, total: real, d: nat, high: real, y: real)
    requires 1 <= d <= |c| && 0.0 < total <= high && 0.0 < y && y * high < Upto(c, total, d)
    ensures y < c[d - 1]
  {
    TimesOrder(c[d - 1], y, total);
    TimesOrder(total, high, y);
  }

  lemma BelowFrom(c: seq<real>, total: real, d: nat, low: real, y: real)
    requires 1 <= d <= |c| && 0.0 < low <= total && 0.0 < y && Upto(c, total, d) < y * low
    ensures c[d - 1] < y
  {
    TimesOrder(y, c[d - 1], total);
    TimesOrder(low, total, y);
  }

  /** Seventeen blocks: with a ripple between 1.45 and 1.46, the spike is at degree 12. */
  lemma TableOfSeventeen(m: Libm, r: real)
    requires IsRipple(m, 17, r) && 1.45 <= r <= 1.46 && 1.06 <= m.dlog(r / 0.5) <= 1.07
    ensures var c := Cdf(m, 17); IsCdf(c) && c[0] < 0.11 && 0.5 < c[1] < 0.52 && 0.65 < c[2]
  {
    hide Cdf, MassOf, Upto, IsRipple, IsSpike, SpikePart;
    var c := Cdf(m, 17);
    CdfIsDistribution(m, 17);
    TwelveIsSpike(r);
    SpikeBounds(m, r);
    var total := RobustSoliton(m, 17, r, 12);
    SeventeenMasses(c, total, r, SpikePart(m, r));
    BelowFrom(c, total, 1, 1.34, 0.11);
    AboveFrom(c, total, 2, 1.36, 0.5);
    BelowFrom(c, total, 2, 1.34, 0.52);
    AboveFrom(c, total, 3, 1.355, 0.65);
  }

  lemma TwelveIsSpike(r: real)
    requires 1.45 <= r <= 1.46
    ensures IsSpike(17, r, 12)
  {
  }

  lemma SpikeBounds(m: Libm, r: real)
    requires 1.45 <= r <= 1.46 && 1.06 <= m.dlog(r / 0.5) <= 1.07
    ensures 1.53 <= SpikePart(m, r) <= 1.57
  {
    ProductBounds(r, m.dlog(r / 0.5));
  }

  lemma ProductBounds(r: real, l: real)
    requires 1.45 <= r <= 1.46 && 1.06 <= l <= 1.07
    ensures 1.53 <= r * l <= 1.57
  {
    TimesOrder(1.45, r, l);
    TimesOrder(r, 1.46, l);
    assert r * l <= 1.46 * l;
    assert 1.45 * l <= r * l;
  }

  lemma SeventeenMasses(c: seq<real>, total: real, r: real, spike: real)
    requires |c| == 17 && c[16] == 1.0 && 1.45 <= r <= 1.46 && 1.53 <= spike <= 1.57
    requires MassOf(c, total, 1) == 1.0 / 17.0 + r / 17.0
    requires forall d: nat :: 1 < d < 12 ==>
               MassOf(c, total, d) == 1.0 / d as real / (d - 1) as real + r / d as real / 17 as real
    requires MassOf(c, total, 12) == 1.0 / 132.0 + spike / 17.0
    requires forall d: nat :: 12 < d <= 17 ==> MassOf(c, total, d) == 1.0 / d as real / (d - 1) as real
    ensures 1.345 < total < 1.355
    ensures Upto(c, total, 1) < 0.146 && 0.685 < Upto(c, total, 2) < 0.69 && 0.881 < Upto(c, total, 3)
  {
    hide MassOf, Upto;
    First(c, total);
    Last(c, total);
    NextMass(c, total, 2, 1.0 / 2.0 + r / 34.0);
    NextMass(c, total, 3, 1.0 / 6.0 + r / 51.0);
    NextMass(c, total, 4, 1.0 / 12.0 + r / 68.0);
    NextMass(c, total, 5, 1.0 / 20.0 + r / 85.0);
    NextMass(c, total, 6, 1.0 / 30.0 + r / 102.0);
    NextMass(c, total, 7, 1.0 / 42.0 + r / 119.0);
    NextMass(c, total, 8, 1.0 / 56.0 + r / 136.0);
    NextMass(c, total, 9, 1.0 / 72.0 + r / 153.0);
    NextMass(c, total, 10, 1.0 / 90.0 + r / 170.0);
    NextMass(c, total, 11, 1.0 / 110.0 + r / 187.0);
    NextMass(c, total, 12, 1.0 / 132.0 + spike / 17.0);
    NextMass(c, total, 13, 1.0 / 156.0);
    NextMass(c, total, 14, 1.0 / 182.0);
    NextMass(c, total, 15, 1.0 / 210.0);
    NextMass(c, total, 16, 1.0 / 240.0);
    NextMass(c, total, 17, 1.0 / 272.0);
  }

  /* ---------- the pinned subsets ---------- */

  lemma SubsetsOfTwo(m: Libm)
    requires IsRipple(m, 2, 1.0) && m.dlog(2.0) < 0.7
    ensures var c := Cdf(m, 2);
            && IndicesFrom(c, SESSION, 0) == [1] && IndicesFrom(c, SESSION, 1) == [1] && IndicesFrom(c, SESSION, 2) == [1]
            && IndicesFrom(c, SESSION, 41) == [0] && IndicesFrom(c, SESSION, 1000) == [1]
  {
    hide Cdf, IsCdf, IndicesFrom, FrameSeed, Draw;
    var c := Cdf(m, 2);
    TableOfTwo(m);
    AllDraws();
    DegreeOf(c, 0, 0x205c_52c0, 1);
    DegreeOf(c, 1, 0x3d41_9a15, 1);
    DegreeOf(c, 2, 0x478d_cba0, 1);
    DegreeOf(c, 41, 0x890b_6a68, 1);
    DegreeOf(c, 1000, 0x8a4a_7ba7, 1);
    One(c, 0, 0x98a2_abd7, 1);
    One(c, 1, 0x2b97_417f, 1);
    One(c, 2, 0x5a2f_8f97, 1);
    One(c, 41, 0xa747_b0e6, 0);
    One(c, 1000, 0xcb36_7197, 1);
  }

  lemma SubsetsOfSeventeen(m: Libm, r: real)
    requires IsRipple(m, 17, r) && 1.45 <= r <= 1.46 && 1.06 <= m.dlog(r / 0.5) <= 1.07
    ensures var c := Cdf(m, 17);
            && IndicesFrom(c, SESSION, 0) == [3, 14] && IndicesFrom(c, SESSION, 1) == [12, 0]
            && IndicesFrom(c, SESSION, 2) == [6, 8] && IndicesFrom(c, SESSION, 41) == [15, 16, 13]
            && IndicesFrom(c, SESSION, 1000) == [11, 2, 16]
  {
    hide Cdf, IsCdf, IndicesFrom, FrameSeed, Draw;
    var c := Cdf(m, 17);
    TableOfSeventeen(m, r);
    AllDraws();
    DegreeOf(c, 0, 0x205c_52c0, 2);
    DegreeOf(c, 1, 0x3d41_9a15, 2);
    DegreeOf(c, 2, 0x478d_cba0, 2);
    DegreeOf(c, 41, 0x890b_6a68, 3);
    DegreeOf(c, 1000, 0x8a4a_7ba7, 3);
    Two(c, 0, 0x98a2_abd7, 0xebe2_9fc1, 0, 3, 14);
    Two(c, 1, 0x2b97_417f, 0xaff0_321c, 0, 12, 0);
    Two(c, 2, 0x5a2f_8f97, 0x83c1_2b84, 0x25ca_ab17, 6, 8);
    Three(c, 41, 0xa747_b0e6, 0xeae0_29bf, 0x3d3a_b3c1);
    Three(c, 1000, 0xcb36_7197, 0x5e40_4c31, 0x73be_bbb6);
  }

  lemma AllDraws()
    ensures Drawn(0, 0, 0x205c_52c0) && Drawn(0, 1, 0x98a2_abd7) && Drawn(0, 2, 0xebe2_9fc1)
    ensures Drawn(1, 0, 0x3d41_9a15) && Drawn(1, 1, 0x2b97_417f) && Drawn(1, 2, 0xaff0_321c)
    ensures Drawn(2, 0, 0x478d_cba0) && Drawn(2, 1, 0x5a2f_8f97) && Drawn(2, 2, 0x83c1_2b84) && Drawn(2, 3, 0x25ca_ab17)
    ensures Drawn(41, 0, 0x890b_6a68) && Drawn(41, 1, 0xa747_b0e6) && Drawn(41, 2, 0xeae0_29bf) && Drawn(41, 3, 0x3d3a_b3c1)
    ensures Drawn(1000, 0, 0x8a4a_7ba7) && Drawn(1000, 1, 0xcb36_7197) && Drawn(1000, 2, 0x5e40_4c31) && Drawn(1000, 3, 0x73be_bbb6)
  {
    hide FrameSeed, Draw;
    Seeds();
    FirstDraws0();
    MoreDraws0();
    FirstDraws1();
    MoreDraws1();
    FirstDraws2();
    MoreDraws2();
    FirstDraws41();
    MoreDraws41();
    FirstDraws1000();
    MoreDraws1000();
  }
}
