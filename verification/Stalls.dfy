/** Dead ends: when a decoder can never accept another frame, and honest runs that
    end there although blocks are still missing. */
module Stalls {
  import opened Words
  import opened Sets
  import opened Modular
  import opened Soliton
  import opened Prng
  import opened Selection
  import opened Peeling
  import opened Equations
  import opened Codec
  import Soundness
  import opened Decoder
  import opened Runs
  import opened Causal

  /* ---------- when nothing more is accepted ---------- */

  /** Complete, or every number is known already or over budget. */
  ghost predicate Final(cfg: Config, a: Abs)
    requires ConfigOk(cfg) && SystemOk(cfg, a.acc)
  {
    Complete(cfg, a.acc) || forall q: u32 :: q in a.acc || OverBudget(cfg, a, q)
  }

  lemma {:induction false} FinalStays(cfg: Config, a: Abs, es: seq<Event>)
    requires ConfigOk(cfg) && SystemOk(cfg, a.acc) && Final(cfg, a)
    ensures var r := Run(cfg, a, es); r.acc == a.acc && r.stored == a.stored && r.edges == a.edges
  {
    hide Complete, ConfigOk, SystemOk, NewEdges;
    if es != [] {
      FinalStays(cfg, a, es[..|es| - 1]);
    }
  }

  /** Exactly when a decoder has accepted its last frame, whatever may still come. */
  lemma FinalExactlyWhen(cfg: Config, a: Abs)
    requires ConfigOk(cfg) && SystemOk(cfg, a.acc)
    ensures (forall es :: Run(cfg, a, es).acc == a.acc) <==> Final(cfg, a)
  {
    if Final(cfg, a) {
      forall es ensures Run(cfg, a, es).acc == a.acc {
        FinalStays(cfg, a, es);
      }
    } else {
      var q: u32 :| q !in a.acc && !OverBudget(cfg, a, q);
      OneMore(cfg, a, q);
    }
  }

  lemma OneMore(cfg: Config, a: Abs, q: u32)
    requires ConfigOk(cfg) && SystemOk(cfg, a.acc) && !Complete(cfg, a.acc)
    requires q !in a.acc && !OverBudget(cfg, a, q)
    ensures exists es :: Run(cfg, a, es).acc != a.acc
  {
    hide Complete, OverBudget, SystemOk;
    var e := Event(q, seq(cfg.blockLen, _ => 0));
    RunOne(cfg, a, e);
    assert q in Run(cfg, a, [e]).acc;
  }

  /** A full arena is final, so an incomplete decoder with a full arena never completes. */
  lemma FullArenaIsFinal(cfg: Config, a: Abs, es: seq<Event>)
    requires ConfigOk(cfg) && SystemOk(cfg, a.acc) && a.stored >= 4 * cfg.k
    ensures Final(cfg, a) && Run(cfg, a, es).acc == a.acc
  {
    hide Complete, SystemOk, NewEdges;
    FinalStays(cfg, a, es);
  }

  /** The budget test comes before the test for redundancy: in every run, a new frame that would need no storage is
      accepted exactly when the arena is not full. */
  lemma RedundantFramesAreDroppedToo(cfg: Config, es: seq<Event>, q: u32, block: seq<bv8>)
    requires ConfigOk(cfg) && |block| == cfg.blockLen && q !in After(cfg, es).acc && !Complete(cfg, After(cfg, es).acc)
    requires Unsolved(cfg, After(cfg, es).acc, q) == 0
    ensures q in Step(cfg, After(cfg, es), q, block).acc <==> After(cfg, es).stored < 4 * cfg.k
  {
    hide Complete, Solved, IndexSet, ConfigOk, SystemOk, Run;
    ResourceBounds(cfg, es);
  }

  /* ---------- frames that solve nothing ---------- */

  /** Different frames of the right length, each with 2 to 16 blocks outside `done`. */
  ghost predicate Stalling(cfg: Config, es: seq<Event>, done: set<nat>)
    requires ConfigOk(cfg)
  {
    && (forall i :: 0 <= i < |es| ==> |es[i].block| == cfg.blockLen && 2 <= |IndexSet(cfg, es[i].q) - done| <= 16)
    && forall i, j :: 0 <= i < j < |es| ==> es[i].q != es[j].q
  }

  /** An equation with two or more unknown blocks solves nothing. */
  lemma SolvesNothing(cfg: Config, sys: System, q: u32, eqn: Equation)
    requires ConfigOk(cfg) && SystemOk(cfg, sys) && q !in sys && SystemOk(cfg, sys[q := eqn])
    requires |eqn.idx - Solved(cfg, sys)| >= 2
    ensures Solved(cfg, sys[q := eqn]) == Solved(cfg, sys)
  {
    hide SystemOk, ConfigOk, Peel;
    var s, more := Solved(cfg, sys), sys[q := eqn];
    FamilyWithin(cfg, sys);
    FamilyWithin(cfg, more);
    Soundness.FamilyAdd(sys, q, eqn);
    PeelLeast(FamilyOf(sys), cfg.k, s);
    forall b ensures !Reveals(eqn.idx, s, b) {
      TwoLeft(eqn.idx, s, b);
    }
    PeelLeast(FamilyOf(more), cfg.k, s);
    PeelMonotone(FamilyOf(sys), FamilyOf(more), cfg.k);
  }

  lemma TwoLeft(e: set<nat>, s: set<nat>, b: nat)
    requires |e - s| >= 2
    ensures !Reveals(e, s, b)
  {
    if Reveals(e, s, b) {
      SubsetSize(e - s, {b});
    }
  }

  lemma StallingStep(cfg: Config, a: Abs, q: u32, block: seq<bv8>, u: nat)
    requires ConfigOk(cfg) && SystemOk(cfg, a.acc) && |block| == cfg.blockLen && q !in a.acc
    requires u == |IndexSet(cfg, q) - Solved(cfg, a.acc)| >= 2
    requires a.stored + 1 <= 4 * cfg.k && a.edges + u <= 64 * cfg.k
    ensures var r := Step(cfg, a, q, block);
            && Solved(cfg, r.acc) == Solved(cfg, a.acc) && r.acc.Keys == a.acc.Keys + {q}
            && r.stored == a.stored + 1 && r.edges == a.edges + u && r.dropped == a.dropped
  {
    hide SystemOk, Solved, ConfigOk, IndexSet, WordsOf, WordCount;
    NotAll(cfg, a.acc, q);
    AcceptKeepsOk(cfg, a, q, block);
    var r := Accept(cfg, a, q, block);
    SolvesNothing(cfg, a.acc, q, r.acc[q]);
  }

  /** A block that some frame still lacks is missing. */
  lemma NotAll(cfg: Config, sys: System, q: u32)
    requires ConfigOk(cfg) && SystemOk(cfg, sys) && IndexSet(cfg, q) - Solved(cfg, sys) != {}
    ensures !Complete(cfg, sys)
  {
    hide SystemOk, Solved, ConfigOk;
    var b :| b in IndexSet(cfg, q) - Solved(cfg, sys);
    assert b in Below(cfg.k);
  }

  lemma StallingLast(cfg: Config, es: seq<Event>, done: set<nat>)
    requires ConfigOk(cfg) && Stalling(cfg, es, done) && es != []
    ensures var front, last := es[..|es| - 1], es[|es| - 1];
            && Stalling(cfg, front, done) && |last.block| == cfg.blockLen && 2 <= |IndexSet(cfg, last.q) - done| <= 16
            && last.q !in Heard(cfg, front) && Heard(cfg, es) == Heard(cfg, front) + {last.q}
  {
    hide IndexSet, ConfigOk;
    HeardNext(cfg, es);
  }

  /** New frames that each lack 2 to 16 blocks are all stored, as long as slots last, and none of them solves anything. */
  lemma {:induction false} StallingRun(cfg: Config, a: Abs, es: seq<Event>)
    requires ConfigOk(cfg) && SystemOk(cfg, a.acc) && Stalling(cfg, es, Solved(cfg, a.acc))
    requires forall q :: q in Heard(cfg, es) ==> q !in a.acc
    requires a.stored + |es| <= 4 * cfg.k && a.edges + 16 * |es| <= 64 * cfg.k
    ensures var r := Run(cfg, a, es);
            && Solved(cfg, r.acc) == Solved(cfg, a.acc) && r.dropped == a.dropped
            && r.stored == a.stored + |es| && r.edges <= a.edges + 16 * |es|
            && r.acc.Keys == a.acc.Keys + Heard(cfg, es)
  {
    hide SystemOk, Solved, ConfigOk, IndexSet, Step, Heard, Stalling;
    if es == [] {
      NothingHeard(cfg);
    } else {
      var n := |es| - 1;
      StallingLast(cfg, es, Solved(cfg, a.acc));
      StallingRun(cfg, a, es[..n]);
      var b := Run(cfg, a, es[..n]);
      StallingStep(cfg, b, es[n].q, es[n].block, |IndexSet(cfg, es[n].q) - Solved(cfg, b.acc)|);
    }
  }

  /** In every mode: any `4 * k` different frames of 2 to 16 blocks each fill the arena without solving a block, and the
      decoder has accepted its last frame. */
  lemma FullWithoutAnyBlock(cfg: Config, es: seq<Event>)
    requires ConfigOk(cfg) && |es| == 4 * cfg.k && Stalling(cfg, es, {})
    ensures var a := After(cfg, es);
            && a.stored == 4 * cfg.k && a.dropped == 0 && Solved(cfg, a.acc) == {}
            && !Complete(cfg, a.acc) && Final(cfg, a)
  {
    hide Solved, IndexSet, Run, Stalling;
    NothingSolvedYet(cfg);
    StallingRun(cfg, EMPTY_ABS, es);
    FullArenaIsFinal(cfg, After(cfg, es), []);
    assert 0 in Below(cfg.k);
  }

  lemma NothingSolvedYet(cfg: Config)
    requires ConfigOk(cfg)
    ensures SystemOk(cfg, map[]) && Solved(cfg, map[]) == {}
  {
    FamilyWithin(cfg, map[]);
    assert FamilyOf(map[]) == {};
    PeelCount({}, cfg.k);
  }

  /* ---------- draws that give one degree ---------- */

  /** `n` consecutive first draws that all give degree `d`: there are that many as soon as the degree's ideal-soliton mass
      covers them. */
  lemma DegreeWindow(m: Libm, k: nat, d: nat, n: nat) returns (t0: u32)
    requires 2 <= d <= k && 0 < n && (n + 1) as real * Cumulative(m, k, k) <= Rho(k, d) * 4294967296.0
    ensures t0 + n <= MODULUS
    ensures forall t: u32 :: t0 <= t < t0 + n ==> Degree(Cdf(m, k), Unit(t)) == d
  {
    hide Rho, Tau, Cdf;
    var c, total := Cdf(m, k), Cumulative(m, k, k);
    CdfIsDistribution(m, k);
    DegreeMass(m, k, d);
    var lo, hi := c[d - 2], c[d - 1];
    assert lo >= c[0] > 0.0 && hi <= c[k - 1] == 1.0;
    MassCovers(Rho(k, d), Tau(m, k, d), total, n);
    assert (hi - lo) * 4294967296.0 >= (n + 1) as real;
    var base := (lo * 4294967296.0).Floor;
    t0 := base + 1;
    forall t: u32 | t0 <= t < t0 + n ensures Degree(c, Unit(t)) == d {
      assert lo * 4294967296.0 < t as real < hi * 4294967296.0;
      assert forall j :: 0 <= j < d - 1 ==> c[j] <= lo;
      DegreeIsLeast(c, Unit(t), d);
    }
  }

  lemma MassCovers(rho: real, tau: real, total: real, n: nat)
    requires total > 0.0 && tau >= 0.0 && (n + 1) as real * total <= rho * 4294967296.0
    ensures (rho + tau) / total * 4294967296.0 >= (n + 1) as real
  {
    var x := (rho + tau) / total;
    assert x * total == rho + tau;
    if x * 4294967296.0 < (n + 1) as real {
      assert x * 4294967296.0 * total < (n + 1) as real * total;
    }
  }

  /** The blocks of the frame with first draw `t`. */
  ghost function DrawnSet(cfg: Config, t: u32): set<nat>
    requires ConfigOk(cfg)
  {
    IndexSet(cfg, SeqWithDraw(cfg.session, t))
  }

  /** The frame with first draw `t` combines as many blocks as that draw says, if it is a repair frame. */
  lemma DrawnDegree(cfg: Config, t: u32)
    requires ConfigOk(cfg) && cfg.sysSpan <= SeqWithDraw(cfg.session, t)
    ensures |DrawnSet(cfg, t)| == Degree(Cdf(cfg.libm, cfg.k), Unit(t))
  {
    hide Cdf, FrameSeed, SeqWithDraw, TapeOf, Degree, Unit, Selected, Distinct;
    var q := SeqWithDraw(cfg.session, t);
    FirstDraw(cfg.session, t);
    MembersSize(Indices(cfg, q));
  }

  lemma DifferentDraws(session: u32, s: u32, t: u32)
    requires s != t
    ensures SeqWithDraw(session, s) != SeqWithDraw(session, t)
  {
    hide SeqWithDraw, FrameSeed, TapeOf;
    FirstDraw(session, s);
    FirstDraw(session, t);
  }

  /** The honest frame whose first draw is `t`. */
  ghost function Drawn(cfg: Config, payload: seq<bv8>, t: u32): Event
    requires ConfigOk(cfg) && |payload| == cfg.totalLen
  {
    var q := SeqWithDraw(cfg.session, t);
    Event(q, Encoded(cfg, payload, q))
  }

  /** The honest repair frames whose first draws are the `n` values from `t0` on. */
  ghost function Repairs(cfg: Config, payload: seq<bv8>, t0: u32, n: nat): (es: seq<Event>)
    requires ConfigOk(cfg) && |payload| == cfg.totalLen && t0 + n <= MODULUS
  {
    if n == 0 then []
    else
      var rest, e := Repairs(cfg, payload, t0, n - 1), Drawn(cfg, payload, t0 + n - 1);
      if e.q >= cfg.sysSpan then rest + [e] else rest
  }

  /** The first-phase numbers among those draws. */
  ghost function FirstPhaseHits(cfg: Config, t0: u32, n: nat): (qs: set<nat>)
    requires t0 + n <= MODULUS
    ensures qs <= Below(cfg.sysSpan)
  {
    if n == 0 then {}
    else
      var rest, q := FirstPhaseHits(cfg, t0, n - 1), SeqWithDraw(cfg.session, t0 + n - 1);
      if q < cfg.sysSpan then rest + {q} else rest
  }

  /** `q` is the frame of some draw in the window. */
  ghost predicate FromWindow(cfg: Config, t0: u32, n: nat, q: nat)
    requires t0 + n <= MODULUS
  {
    exists t: u32 :: t0 <= t < t0 + n && q == SeqWithDraw(cfg.session, t)
  }

  lemma NextIsNew(cfg: Config, t0: u32, n: nat)
    requires t0 + n + 1 <= MODULUS
    ensures !FromWindow(cfg, t0, n, SeqWithDraw(cfg.session, t0 + n))
    ensures FromWindow(cfg, t0, n + 1, SeqWithDraw(cfg.session, t0 + n))
    ensures forall q :: FromWindow(cfg, t0, n, q) ==> FromWindow(cfg, t0, n + 1, q)
  {
    hide SeqWithDraw;
    var last: u32 := t0 + n;
    forall t: u32 | t0 <= t < t0 + n ensures SeqWithDraw(cfg.session, t) != SeqWithDraw(cfg.session, last) {
      DifferentDraws(cfg.session, t, last);
    }
  }

  /** Honest repair frames of degree `d`, all different. */
  ghost predicate OfDegree(cfg: Config, payload: seq<bv8>, es: seq<Event>, d: nat)
    requires ConfigOk(cfg) && |payload| == cfg.totalLen
  {
    && (forall i :: 0 <= i < |es| ==>
         es[i].q >= cfg.sysSpan && es[i].block == Encoded(cfg, payload, es[i].q) && |IndexSet(cfg, es[i].q)| == d)
    && forall i, j :: 0 <= i < j < |es| ==> es[i].q != es[j].q
  }

  /** Every draw of the window has given either one of the frames or a first-phase number. */
  ghost predicate Gathered(cfg: Config, payload: seq<bv8>, t0: u32, n: nat, d: nat, es: seq<Event>, hits: set<nat>)
    requires ConfigOk(cfg) && |payload| == cfg.totalLen && t0 + n <= MODULUS
  {
    && OfDegree(cfg, payload, es, d) && |es| + |hits| == n
    && (forall i :: 0 <= i < |es| ==> FromWindow(cfg, t0, n, es[i].q))
    && forall q :: q in hits ==> FromWindow(cfg, t0, n, q)
  }

  lemma GatherFrame(cfg: Config, payload: seq<bv8>, t0: u32, n: nat, d: nat, es: seq<Event>, hits: set<nat>, t: u32)
    requires ConfigOk(cfg) && |payload| == cfg.totalLen && t == t0 + n && Gathered(cfg, payload, t0, n, d, es, hits)
    requires SeqWithDraw(cfg.session, t) >= cfg.sysSpan && |DrawnSet(cfg, t)| == d
    ensures Gathered(cfg, payload, t0, n + 1, d, es + [Drawn(cfg, payload, t)], hits)
  {
    hide SeqWithDraw, Encoded, IndexSet, ConfigOk, FromWindow;
    NextIsNew(cfg, t0, n);
  }

  lemma GatherHit(cfg: Config, payload: seq<bv8>, t0: u32, n: nat, d: nat, es: seq<Event>, hits: set<nat>, t: u32)
    requires ConfigOk(cfg) && |payload| == cfg.totalLen && t == t0 + n && Gathered(cfg, payload, t0, n, d, es, hits)
    ensures Gathered(cfg, payload, t0, n + 1, d, es, hits + {SeqWithDraw(cfg.session, t)})
  {
    hide SeqWithDraw, Encoded, IndexSet, ConfigOk, FromWindow, OfDegree;
    NextIsNew(cfg, t0, n);
  }

  lemma {:induction false} RepairsGathered(cfg: Config, payload: seq<bv8>, t0: u32, n: nat, d: nat)
    requires ConfigOk(cfg) && |payload| == cfg.totalLen && t0 + n <= MODULUS
    requires forall t: u32 :: t0 <= t < t0 + n ==> Degree(Cdf(cfg.libm, cfg.k), Unit(t)) == d
    ensures Gathered(cfg, payload, t0, n, d, Repairs(cfg, payload, t0, n), FirstPhaseHits(cfg, t0, n))
  {
    hide SeqWithDraw, Encoded, IndexSet, ConfigOk, Degree, Unit, Cdf, FromWindow, DrawnSet, Gathered;
    if n == 0 {
      NothingGathered(cfg, payload, t0, d);
    } else {
      RepairsGathered(cfg, payload, t0, n - 1, d);
      var t: u32 := t0 + n - 1;
      var es, hits := Repairs(cfg, payload, t0, n - 1), FirstPhaseHits(cfg, t0, n - 1);
      if SeqWithDraw(cfg.session, t) >= cfg.sysSpan {
        DrawnDegree(cfg, t);
        GatherFrame(cfg, payload, t0, n - 1, d, es, hits, t);
      } else {
        GatherHit(cfg, payload, t0, n - 1, d, es, hits, t);
      }
    }
  }

  lemma NothingGathered(cfg: Config, payload: seq<bv8>, t0: u32, d: nat)
    requires ConfigOk(cfg) && |payload| == cfg.totalLen
    ensures Gathered(cfg, payload, t0, 0, d, [], {})
  {
  }

  /** At least `n` honest repair frames of degree `d`, in every mode. */
  lemma ManyOfDegree(cfg: Config, payload: seq<bv8>, d: nat, n: nat) returns (es: seq<Event>)
    requires ConfigOk(cfg) && |payload| == cfg.totalLen && 2 <= d <= cfg.k && 0 < n
    requires (n + cfg.k + 1) as real * Cumulative(cfg.libm, cfg.k, cfg.k) <= Rho(cfg.k, d) * 4294967296.0
    ensures |es| == n && OfDegree(cfg, payload, es, d)
  {
    hide Degree, Unit, Cdf, Cumulative, Rho, Repairs, FirstPhaseHits, IndexSet, Encoded, FromWindow;
    var t0 := DegreeWindow(cfg.libm, cfg.k, d, n + cfg.k);
    RepairsGathered(cfg, payload, t0, n + cfg.k, d);
    SubsetSize(FirstPhaseHits(cfg, t0, n + cfg.k), Below(cfg.sysSpan));
    es := Repairs(cfg, payload, t0, n + cfg.k)[..n];
  }

  /* ---------- honest runs into a dead end ---------- */

  /** In every mode and for every `k` of at least 2, an honest sender has `4 * k` frames after which the decoder knows no
      block, has dropped nothing, and will never accept a frame again.  The bound on the total mass is generous: the true
      total is below 2. */
  lemma HonestDeadEnd(cfg: Config, payload: seq<bv8>) returns (es: seq<Event>)
    requires ConfigOk(cfg) && |payload| == cfg.totalLen && cfg.k >= 2 && Cumulative(cfg.libm, cfg.k, cfg.k) <= 6000.0
    ensures |es| == 4 * cfg.k && OfDegree(cfg, payload, es, 2) && Honest(cfg, payload, es)
    ensures var a := After(cfg, es);
            && a.stored == 4 * cfg.k && a.dropped == 0 && Solved(cfg, a.acc) == {}
            && !Complete(cfg, a.acc) && Final(cfg, a)
  {
    hide IndexSet, Encoded, Solved, Run, Complete, Final, Cumulative;
    assert Rho(cfg.k, 2) == 0.5;
    EnoughMass(5 * cfg.k + 1, Cumulative(cfg.libm, cfg.k, cfg.k));
    es := ManyOfDegree(cfg, payload, 2, 4 * cfg.k);
    forall i | 0 <= i < |es| ensures IndexSet(cfg, es[i].q) - {} == IndexSet(cfg, es[i].q) {
    }
    FullWithoutAnyBlock(cfg, es);
  }

  lemma EnoughMass(n: nat, total: real)
    requires n <= 327676 && 0.0 <= total <= 6000.0
    ensures n as real * total <= 0.5 * 4294967296.0
  {
    assert n as real * total <= n as real * 6000.0;
  }

  /* ---------- redundant frames dropped in an honest run ---------- */

  /** What holds of the true logarithm and square root for every `k` of at least 3. */
  ghost predicate Moderate(m: Libm, k: nat)
    requires k > 0
  {
    Cumulative(m, k, k) <= 2.0 && Ripple(m, k) < k as real
  }

  /** The smallest draws give degree 1: there are more of them than blocks. */
  lemma SmallDraws(m: Libm, k: nat, t: u32)
    requires 2 <= k <= 65535 && Moderate(m, k) && 0 < t <= k + 1
    ensures Degree(Cdf(m, k), Unit(t)) == 1
  {
    var c, total := Cdf(m, k), Cumulative(m, k, k);
    CdfIsDistribution(m, k);
    CdfAt(m, k, 0);
    FirstMass(m, k);
    ShareOfOne(Cumulative(m, k, 1), total, k, t);
    assert c[0] >= Unit(t);
    DegreeIsLeast(c, Unit(t), 1);
  }

  lemma FirstMass(m: Libm, k: nat)
    requires k >= 2 && Ripple(m, k) < k as real
    ensures Cumulative(m, k, 1) >= 2.0 / k as real
  {
    var r, x := Ripple(m, k), k as real;
    hide Ripple;
    Above(x, r, 1.0);
    assert Spike(m, k) >= 2;
    assert Tau(m, k, 1) == r / x;
    assert 1.0 / x * x == 1.0;
    AtLeast(r, x, 1.0 / x);
    assert Cumulative(m, k, 0) == 0.0;
  }

  lemma ShareOfOne(first: real, total: real, k: nat, t: nat)
    requires 2 <= k <= 65535 && first >= 2.0 / k as real && 0.0 < total <= 2.0 && t <= k + 1
    ensures first / total >= t as real / 4294967296.0
  {
    var x, c := k as real, t as real / 4294967296.0;
    SmallProduct(t as real, x);
    AtLeast(1.0, x, c);
    TimesAtMost(c, 1.0 / x, total);
    AtLeast(first, total, c);
  }

  lemma SmallProduct(u: real, v: real)
    requires 0.0 <= u <= 65536.0 && 0.0 < v <= 65535.0
    ensures u / 4294967296.0 * v <= 1.0
  {
    Grows(u, 65536.0, v);
    assert u * v <= 65536.0 * v <= 4294901760.0;
    assert u / 4294967296.0 * v == u * v / 4294967296.0;
  }

  lemma TimesAtMost(c: real, d: real, total: real)
    requires 0.0 <= c <= d && 0.0 < total <= 2.0
    ensures c * total <= 2.0 * d
  {
    assert c * total <= c * 2.0;
  }

  lemma Above(a: real, b: real, c: real)
    requires b > 0.0 && a > c * b
    ensures a / b > c
  {
    var q := a / b;
    assert q * b == a;
    Grows(q, c, b);
  }

  lemma AtLeast(a: real, b: real, c: real)
    requires b > 0.0 && a >= c * b
    ensures a / b >= c
  {
    var q := a / b;
    assert q * b == a;
    Grows(c, q, b);
  }

  lemma Grows(x: real, y: real, b: real)
    requires b > 0.0
    ensures x <= y <==> x * b <= y * b
  {
    assert (y - x) * b == y * b - x * b;
    assert y >= x ==> (y - x) * b >= 0.0;
    assert y < x ==> (x - y) * b > 0.0;
  }

  /** Pure soliton mode with at least three blocks. */
  ghost predicate PureMode(cfg: Config) {
    ConfigOk(cfg) && cfg.k >= 3 && cfg.sysSpan == 0 && Moderate(cfg.libm, cfg.k)
  }

  /** There are such parameters. */
  lemma SomePureMode()
    ensures PureMode(Config(3, 1, 7, 3, 0, false, Libm(_ => 0.0, _ => 0.0)))
  {
    var m := Libm(_ => 0.0, _ => 0.0);
    assert Ripple(m, 3) == 1.0 && Spike(m, 3) == 3;
    assert Tau(m, 3, 1) == 1.0 / 3.0 && Tau(m, 3, 2) == 1.0 / 6.0 && Tau(m, 3, 3) == 0.0;
    assert Cumulative(m, 3, 0) == 0.0 && Cumulative(m, 3, 1) == 2.0 / 3.0 && Cumulative(m, 3, 2) == 4.0 / 3.0;
  }

  lemma SingleBlock(cfg: Config, t: u32)
    requires PureMode(cfg) && 0 < t <= cfg.k + 1
    ensures |DrawnSet(cfg, t)| == 1 && DrawnSet(cfg, t) <= Below(cfg.k)
  {
    hide IndexSet, SeqWithDraw, Moderate, Degree, Unit, Cdf;
    DrawnDegree(cfg, t);
    SmallDraws(cfg.libm, cfg.k, t);
  }

  /** The block of a frame of degree 1. */
  ghost function OnlyBlock(cfg: Config, t: u32): (b: nat)
    requires PureMode(cfg) && 0 < t <= cfg.k + 1
    ensures b < cfg.k && DrawnSet(cfg, t) == {b}
  {
    SingleBlock(cfg, t);
    var b :| b in DrawnSet(cfg, t);
    SubsetSize({b}, DrawnSet(cfg, t));
    assert b in Below(cfg.k);
    b
  }

  lemma Pigeonhole(m: map<nat, nat>, n: nat) returns (x: nat, y: nat)
    requires |m| > n && forall i :: i in m ==> m[i] < n
    ensures x in m && y in m && x != y && m[x] == m[y]
  {
    if forall i, j :: i in m && j in m && i != j ==> m[i] != m[j] {
      InjectionSize(m, n);
    }
    x, y :| x in m && y in m && x != y && m[x] == m[y];
  }

  /** Among `k + 1` single blocks out of `k`, two are the same. */
  lemma TwoAlike(cfg: Config) returns (s: u32, t: u32, b: nat)
    requires PureMode(cfg)
    ensures 0 < s <= cfg.k + 1 && 0 < t <= cfg.k + 1 && s != t && b < cfg.k
    ensures DrawnSet(cfg, s) == DrawnSet(cfg, t) == {b}
  {
    ConfigFacts(cfg);
    assert cfg.k >= 3;
    hide DrawnSet, PureMode, OnlyBlock, ConfigOk;
    var ts := SmallNumbers(cfg.k + 1);
    var m: map<nat, nat> := map t: nat | t in ts :: OnlyBlock(cfg, t);
    assert m.Keys == ts && |m| == |m.Keys|;
    s, t := Pigeonhole(m, cfg.k);
    b := m[s];
  }

  lemma SmallNumbers(n: nat) returns (ts: set<nat>)
    ensures |ts| == n && forall t :: t in ts <==> 0 < t <= n
  {
    ts := Below(n + 1) - {0};
    assert Below(n + 1) == ts + {0};
  }

  /** A first frame of a single block. */
  lemma FirstSingle(cfg: Config, q: u32, block: seq<bv8>, b: nat)
    requires ConfigOk(cfg) && cfg.k > 1 && |block| == cfg.blockLen && IndexSet(cfg, q) == {b}
    ensures SystemOk(cfg, EMPTY_ABS.acc)
    ensures var r := Step(cfg, EMPTY_ABS, q, block);
            r.stored == 1 && r.edges == 0 && r.dropped == 0 && r.acc.Keys == {q} && Solved(cfg, r.acc) == {b}
  {
    hide IndexSet, ConfigOk, WordsOf, Solved, WordCount;
    NothingSolvedYet(cfg);
    assert {b} - {} == {b};
    NotAll(cfg, map[], q);
    AcceptKeepsOk(cfg, EMPTY_ABS, q, block);
    SingleSolved(cfg, Accept(cfg, EMPTY_ABS, q, block).acc, q, b);
  }

  lemma SingleSolved(cfg: Config, sys: System, q: u32, b: nat)
    requires ConfigOk(cfg) && SystemOk(cfg, sys) && sys.Keys == {q} && IndexSet(cfg, q) == {b}
    ensures Solved(cfg, sys) == {b}
  {
    hide IndexSet, ConfigOk, Peel;
    FamilyWithin(cfg, sys);
    assert sys[q].idx in FamilyOf(sys);
    assert FamilyOf(sys) == {{b}};
    PeelLeast(FamilyOf(sys), cfg.k, {b});
    assert !Reveals({b}, Solved(cfg, sys), b);
  }


  /** Frames of three blocks, of which at most one is known, stall. */
  lemma TriplesStall(cfg: Config, payload: seq<bv8>, es: seq<Event>, b: nat)
    requires ConfigOk(cfg) && |payload| == cfg.totalLen && OfDegree(cfg, payload, es, 3)
    ensures Stalling(cfg, es, {b}) && forall q :: q in Heard(cfg, es) ==> |IndexSet(cfg, q)| == 3
  {
    hide IndexSet, Encoded;
    forall i | 0 <= i < |es| ensures |es[i].block| == cfg.blockLen && 2 <= |IndexSet(cfg, es[i].q) - {b}| <= 16 {
      WithoutOne(IndexSet(cfg, es[i].q), b);
    }
  }

  lemma WithoutOne(e: set<nat>, b: nat)
    ensures |e| - 1 <= |e - {b}| <= |e|
  {
    if b in e {
      assert e == e - {b} + {b};
    } else {
      assert e == e - {b};
    }
  }

  /** For every `k` of at least 3, pure soliton mode: one block is solved, then `4 * k - 1` frames of three blocks each
      fill the arena.  The honest sender's next frame carries just the solved block and would need no storage; it is
      dropped. */
  lemma HonestRedundantDrop(cfg: Config, payload: seq<bv8>) returns (es: seq<Event>, next: Event)
    requires PureMode(cfg) && |payload| == cfg.totalLen
    ensures |es| == 4 * cfg.k && Honest(cfg, payload, es + [next])
    ensures var a := After(cfg, es);
            && a.stored == 4 * cfg.k && a.dropped == 0 && !Complete(cfg, a.acc) && Final(cfg, a)
            && next.q !in a.acc && Unsolved(cfg, a.acc, next.q) == 0
            && After(cfg, es + [next]).dropped == 1 && next.q !in After(cfg, es + [next]).acc
  {
    hide Moderate, IndexSet, SeqWithDraw, Encoded, Solved, SystemOk, Step, OverBudget, Cumulative, Stalling, OfDegree, Heard;
    var s, t, b := TwoAlike(cfg);
    var first := Drawn(cfg, payload, s);
    next := Drawn(cfg, payload, t);
    DifferentDraws(cfg.session, s, t);
    EnoughTriples(cfg);
    var triples := ManyOfDegree(cfg, payload, 3, 4 * cfg.k - 1);
    TriplesStall(cfg, payload, triples, b);
    FirstSingle(cfg, first.q, first.block, b);
    RunOne(cfg, EMPTY_ABS, first);
    var a1 := Run(cfg, EMPTY_ABS, [first]);
    StallingRun(cfg, a1, triples);
    es := [first] + triples;
    RunAppend(cfg, EMPTY_ABS, [first], triples);
    var a := After(cfg, es);
    FullArenaIsFinal(cfg, a, []);
    SomeMissing(cfg, a.acc, b);
    assert (es + [next])[..4 * cfg.k] == es;
    LastDropped(cfg, a, next);
    HonestOfDegree(cfg, payload, triples, 3);
  }

  lemma EnoughTriples(cfg: Config)
    requires PureMode(cfg)
    ensures (5 * cfg.k) as real * Cumulative(cfg.libm, cfg.k, cfg.k) <= Rho(cfg.k, 3) * 4294967296.0
  {
    hide Cumulative, Ripple;
    assert Rho(cfg.k, 3) == 1.0 / 6.0;
    TotalAtLeastOne(cfg.libm, cfg.k);
    TimesAtMost((5 * cfg.k) as real, 327675.0, Cumulative(cfg.libm, cfg.k, cfg.k));
  }

  lemma HonestOfDegree(cfg: Config, payload: seq<bv8>, es: seq<Event>, d: nat)
    requires ConfigOk(cfg) && |payload| == cfg.totalLen && OfDegree(cfg, payload, es, d)
    ensures Honest(cfg, payload, es)
  {
    hide IndexSet, Encoded;
  }

  lemma SomeMissing(cfg: Config, sys: System, b: nat)
    requires ConfigOk(cfg) && SystemOk(cfg, sys) && cfg.k >= 2 && Solved(cfg, sys) == {b}
    ensures !Complete(cfg, sys)
  {
    hide Solved, SystemOk;
    assert |{b}| == 1;
  }

  lemma LastDropped(cfg: Config, a: Abs, next: Event)
    requires ConfigOk(cfg) && SystemOk(cfg, a.acc) && !Complete(cfg, a.acc) && |next.block| == cfg.blockLen
    requires a.stored >= 4 * cfg.k && next.q !in a.acc
    ensures Step(cfg, a, next.q, next.block) == a.(dropped := a.dropped + 1)
  {
    hide Complete, SystemOk, NewEdges, ConfigOk;
  }

  /* ---------- arriving is not enough ---------- */

  /** The honest first-phase frames below `n`. */
  ghost function FirstPhaseFrames(cfg: Config, payload: seq<bv8>, n: nat): (es: seq<Event>)
    requires ConfigOk(cfg) && |payload| == cfg.totalLen && n <= MODULUS
    ensures |es| == n
  {
    if n == 0 then [] else FirstPhaseFrames(cfg, payload, n - 1) + [Event(n - 1, Encoded(cfg, payload, n - 1))]
  }

  lemma {:induction false} FirstPhaseFrameAt(cfg: Config, payload: seq<bv8>, n: nat, i: nat)
    requires ConfigOk(cfg) && |payload| == cfg.totalLen && i < n <= MODULUS
    ensures var e := FirstPhaseFrames(cfg, payload, n)[i];
            e.q == i && e.block == Encoded(cfg, payload, e.q) && |e.block| == cfg.blockLen
  {
    hide Encoded, ConfigOk;
    if i < n - 1 { FirstPhaseFrameAt(cfg, payload, n - 1, i); }
  }

  /** Both first-phase modes, every `k` of at least 2: when the `4 * k` frames of the dead end come first, the complete
      first phase comes too late.  Peeling what arrived determines every block, and the decoder has none. */
  lemma LateFirstPhase(cfg: Config, payload: seq<bv8>) returns (es: seq<Event>)
    requires ConfigOk(cfg) && cfg.sysSpan == cfg.k && |payload| == cfg.totalLen
    requires cfg.k >= 2 && Cumulative(cfg.libm, cfg.k, cfg.k) <= 6000.0
    ensures |es| == 5 * cfg.k && Honest(cfg, payload, es) && Determined(cfg, Heard(cfg, es)) == Below(cfg.k)
    ensures !Complete(cfg, After(cfg, es).acc) && Solved(cfg, After(cfg, es).acc) == {}
  {
    hide IndexSet, Encoded, Solved, Complete, Cumulative, Final, OfDegree, Determined, Step, FirstPhaseFrames;
    var stuck := HonestDeadEnd(cfg, payload);
    var late := FirstPhaseFrames(cfg, payload, cfg.k);
    es := stuck + late;
    FullArenaIsFinal(cfg, After(cfg, stuck), late);
    RunAppend(cfg, EMPTY_ABS, stuck, late);
    forall i | 0 <= i < cfg.k
      ensures late[i].q == i && late[i].block == Encoded(cfg, payload, late[i].q) && |late[i].block| == cfg.blockLen
    {
      FirstPhaseFrameAt(cfg, payload, cfg.k, i);
    }
    forall q | q in Below(cfg.k) ensures q in Heard(cfg, es) {
      assert es[|stuck| + q] == late[q];
    }
    FirstPhaseDetermines(cfg, Heard(cfg, es));
  }

  /** The smallest such case without a first phase: eight frames of both blocks, then one of a single block. */
  lemma LateSingle(cfg: Config, payload: seq<bv8>) returns (es: seq<Event>)
    requires ConfigOk(cfg) && cfg.sysSpan == 0 && |payload| == cfg.totalLen
    requires cfg.k == 2 && Cumulative(cfg.libm, cfg.k, cfg.k) <= 6000.0
    ensures |es| == 9 && Honest(cfg, payload, es) && Determined(cfg, Heard(cfg, es)) == Below(cfg.k)
    ensures !Complete(cfg, After(cfg, es).acc) && Solved(cfg, After(cfg, es).acc) == {}
  {
    hide IndexSet, Encoded, Solved, Complete, Cumulative, Final, Determined, Step, SeqWithDraw;
    var stuck := HonestDeadEnd(cfg, payload);
    var late := Drawn(cfg, payload, 1);
    es := stuck + [late];
    FullArenaIsFinal(cfg, After(cfg, stuck), [late]);
    RunAppend(cfg, EMPTY_ABS, stuck, [late]);
    SmallestDraw(cfg.libm);
    DrawnDegree(cfg, 1);
    assert es[0] == stuck[0] && es[8] == late;
    assert stuck[0].q in Heard(cfg, es) && late.q in Heard(cfg, es);
    BothDetermined(cfg, Heard(cfg, es), stuck[0].q, late.q);
  }

  lemma SmallestDraw(m: Libm)
    requires Cumulative(m, 2, 2) <= 6000.0
    ensures Degree(Cdf(m, 2), Unit(1)) == 1
  {
    var c, first, total := Cdf(m, 2), Cumulative(m, 2, 1), Cumulative(m, 2, 2);
    CdfIsDistribution(m, 2);
    CdfAt(m, 2, 0);
    TotalAtLeastOne(m, 2);
    assert Cumulative(m, 2, 0) == 0.0;
    assert first >= Rho(2, 1) == 0.5;
    AtLeast(first, total, Unit(1));
    DegreeIsLeast(c, Unit(1), 1);
  }

  lemma BothDetermined(cfg: Config, qs: set<u32>, pair: u32, single: u32)
    requires ConfigOk(cfg) && cfg.k == 2 && pair in qs && single in qs
    requires |IndexSet(cfg, pair)| == 2 && |IndexSet(cfg, single)| == 1
    ensures Determined(cfg, qs) == Below(cfg.k)
  {
    hide IndexSet, Peel;
    var s := Determined(cfg, qs);
    PeelLeast(Arrived(cfg, qs), cfg.k, {});
    SubsetSize(IndexSet(cfg, pair), Below(2));
    var b :| b in IndexSet(cfg, single);
    SubsetSize({b}, IndexSet(cfg, single));
    assert !Reveals(IndexSet(cfg, single), s, b);
    var other: nat := 1 - b;
    assert !Reveals(IndexSet(cfg, pair), s, other);
  }
}
