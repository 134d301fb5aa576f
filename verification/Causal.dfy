/** The first phase: what exactly is decoded from first-phase frames alone, and
    what first-phase losses leave behind, in causal and in systematic mode. */
module Causal {
  import opened Sets
  import opened Modular
  import opened Peeling
  import opened Equations
  import opened Codec
  import opened Runs

  ghost predicate CausalMode(cfg: Config) {
    ConfigOk(cfg) && cfg.sysSpan == cfg.k && cfg.causal
  }

  ghost predicate SystematicMode(cfg: Config) {
    ConfigOk(cfg) && cfg.sysSpan == cfg.k && !cfg.causal
  }

  /** `m` is the least first-phase sequence number not accepted, or `k` when none is missing. */
  ghost predicate LeastMissing(keys: set<nat>, k: nat, m: nat) {
    m <= k && (forall q :: 0 <= q < m ==> q in keys) && (m < k ==> m !in keys)
  }

  function FirstMissing(keys: set<nat>, k: nat, from: nat): (m: nat)
    requires from <= k && forall q :: 0 <= q < from ==> q in keys
    ensures LeastMissing(keys, k, m)
    decreases k - from
  {
    if from < k && from in keys then FirstMissing(keys, k, from + 1) else from
  }

  lemma CausalIndex(cfg: Config, q: nat)
    requires CausalMode(cfg) && q < cfg.k
    ensures IndexSet(cfg, q) == if q == 0 then {0} else {q - 1, q}
  {
  }

  lemma SystematicIndex(cfg: Config, q: nat)
    requires SystematicMode(cfg) && q < cfg.k
    ensures IndexSet(cfg, q) == {q}
  {
  }

  /** No accepted frame has exactly one unsolved block. */
  lemma SolvedIsClosed(cfg: Config, sys: System, q: u32, b: nat)
    requires ConfigOk(cfg) && SystemOk(cfg, sys) && q in sys
    ensures !Reveals(IndexSet(cfg, q), Solved(cfg, sys), b)
  {
    hide IndexSet, ConfigOk, Peel;
    FamilyWithin(cfg, sys);
    PeelLeast(FamilyOf(sys), cfg.k, {});
    assert sys[q].idx in FamilyOf(sys);
  }

  /** Any set with that property contains the solved blocks. */
  lemma SolvedIsLeast(cfg: Config, sys: System, t: set<nat>)
    requires ConfigOk(cfg) && SystemOk(cfg, sys)
    requires forall q: u32, b: nat :: q in sys ==> !Reveals(IndexSet(cfg, q), t, b)
    ensures Solved(cfg, sys) <= t
  {
    hide IndexSet, ConfigOk, Peel;
    FamilyWithin(cfg, sys);
    assert Closed(FamilyOf(sys), t);
    PeelLeast(FamilyOf(sys), cfg.k, t);
  }

  /* ---------- causal mode ---------- */

  /** An accepted causal frame `i` ties block `i` to block `i - 1`: both are solved or neither. */
  lemma CausalLink(cfg: Config, sys: System, i: nat)
    requires CausalMode(cfg) && SystemOk(cfg, sys) && i in sys && i < cfg.k
    ensures i == 0 ==> 0 in Solved(cfg, sys)
    ensures i > 0 ==> (i - 1 in Solved(cfg, sys) <==> i in Solved(cfg, sys))
  {
    hide Solved;
    CausalIndex(cfg, i);
    SolvedIsClosed(cfg, sys, i, i);
    if i > 0 {
      SolvedIsClosed(cfg, sys, i, i - 1);
    }
  }

  /** Cuts are all-or-nothing: with the first-phase frames `from+1 .. to` accepted, and any repair frames
      besides, the blocks `from .. to` are solved together or not at all. */
  lemma {:induction false} SegmentAllOrNothing(cfg: Config, sys: System, from: nat, to: nat, b: nat)
    requires CausalMode(cfg) && SystemOk(cfg, sys) && from <= b <= to < cfg.k
    requires forall i :: from < i <= to ==> i in sys
    ensures b in Solved(cfg, sys) <==> from in Solved(cfg, sys)
    decreases b
  {
    hide Solved, SystemOk;
    if from < b {
      CausalLink(cfg, sys, b);
      SegmentAllOrNothing(cfg, sys, from, to, b - 1);
    }
  }

  /** Everything before the first loss is decoded, whatever else arrives. */
  lemma {:induction false} PrefixSolved(cfg: Config, sys: System, n: nat)
    requires CausalMode(cfg) && SystemOk(cfg, sys) && n <= cfg.k && forall q :: 0 <= q < n ==> q in sys
    ensures forall b: nat :: b < n ==> b in Solved(cfg, sys)
  {
    hide Solved, SystemOk;
    if n > 0 {
      PrefixSolved(cfg, sys, n - 1);
      CausalLink(cfg, sys, n - 1);
    }
  }

  /** From first-phase frames only, exactly the blocks before the first missing frame are decoded. */
  lemma FirstPhaseSolvesPrefix(cfg: Config, sys: System, m: nat)
    requires CausalMode(cfg) && SystemOk(cfg, sys) && (forall q :: q in sys ==> q < cfg.k)
    requires LeastMissing(sys.Keys, cfg.k, m)
    ensures Solved(cfg, sys) == Below(m)
  {
    hide Solved, IndexSet, SystemOk;
    PrefixSolved(cfg, sys, m);
    forall q: u32, b: nat | q in sys ensures !Reveals(IndexSet(cfg, q), Below(m), b) {
      CausalIndex(cfg, q);
      LinkStays(q, m, b);
    }
    SolvedIsLeast(cfg, sys, Below(m));
  }

  /** With exactly the blocks below `m` known, only the causal frame `m` would reveal anything. */
  lemma LinkStays(q: nat, m: nat, b: nat)
    requires q != m
    ensures !Reveals(if q == 0 then {0} else {q - 1, q}, Below(m), b)
  {
    if q > m {
      assert q - 1 !in Below(m) && q !in Below(m);
    }
  }

  /** A repair frame that can bridge the single cut at `m`: exactly one of its blocks lies at or beyond it. */
  ghost predicate Bridges(cfg: Config, q: u32, m: nat)
    requires ConfigOk(cfg)
  {
    q >= cfg.k && exists b :: IndexSet(cfg, q) - Below(m) == {b}
  }

  /** One first-phase loss: the stream completes exactly when some accepted repair frame bridges the cut, and
      is stuck at the prefix until then. */
  lemma SingleLoss(cfg: Config, sys: System, m: nat)
    requires CausalMode(cfg) && SystemOk(cfg, sys) && m < cfg.k
    requires forall q :: 0 <= q < cfg.k ==> (q in sys <==> q != m)
    ensures Complete(cfg, sys) <==> exists q :: q in sys && Bridges(cfg, q, m)
    ensures !Complete(cfg, sys) ==> Solved(cfg, sys) == Below(m)
  {
    hide Solved, IndexSet, SystemOk, LeastMissing, Bridges;
    PrefixSolved(cfg, sys, m);
    if q :| q in sys && Bridges(cfg, q, m) {
      BridgeCompletes(cfg, sys, q, m);
    } else {
      NothingBridges(cfg, sys, m);
    }
  }

  lemma NothingBridges(cfg: Config, sys: System, m: nat)
    requires CausalMode(cfg) && SystemOk(cfg, sys) && m < cfg.k && m !in sys
    requires forall q :: q in sys ==> !Bridges(cfg, q, m)
    ensures Solved(cfg, sys) <= Below(m) && !Complete(cfg, sys)
  {
    hide Solved, IndexSet, SystemOk, Bridges, Reveals;
    forall q: u32, b: nat | q in sys ensures !Reveals(IndexSet(cfg, q), Below(m), b) {
      if q < cfg.k {
        CausalIndex(cfg, q);
        LinkStays(q, m, b);
      } else if Reveals(IndexSet(cfg, q), Below(m), b) {
        RevealingBridges(cfg, q, m, b);
      }
    }
    SolvedIsLeast(cfg, sys, Below(m));
    assert m !in Below(m) && m in Below(cfg.k);
  }

  lemma RevealingBridges(cfg: Config, q: u32, m: nat, b: nat)
    requires ConfigOk(cfg) && q >= cfg.k && Reveals(IndexSet(cfg, q), Below(m), b)
    ensures Bridges(cfg, q, m)
  {
    hide IndexSet;
    assert IndexSet(cfg, q) - Below(m) == {b};
  }

  lemma BridgeCompletes(cfg: Config, sys: System, q: u32, m: nat)
    requires CausalMode(cfg) && SystemOk(cfg, sys) && m < cfg.k && q in sys && Bridges(cfg, q, m)
    requires forall i :: 0 <= i < cfg.k ==> (i in sys <==> i != m)
    ensures Complete(cfg, sys)
  {
    hide Solved, IndexSet, SystemOk, Complete;
    PrefixSolved(cfg, sys, m);
    TailTogether(cfg, sys, m);
    var b :| IndexSet(cfg, q) - Below(m) == {b};
    BridgeReveals(cfg, sys, q, m, b);
  }

  /** The blocks from `m` on stand or fall together. */
  lemma TailTogether(cfg: Config, sys: System, m: nat)
    requires CausalMode(cfg) && SystemOk(cfg, sys) && m < cfg.k
    requires forall q :: m < q < cfg.k ==> q in sys
    ensures forall b :: m <= b < cfg.k ==> (b in Solved(cfg, sys) <==> m in Solved(cfg, sys))
  {
    hide Solved, SystemOk;
    forall b | m <= b < cfg.k ensures b in Solved(cfg, sys) <==> m in Solved(cfg, sys) {
      SegmentAllOrNothing(cfg, sys, m, cfg.k - 1, b);
    }
  }

  lemma BridgeReveals(cfg: Config, sys: System, q: u32, m: nat, b: nat)
    requires CausalMode(cfg) && SystemOk(cfg, sys) && m < cfg.k && q in sys
    requires IndexSet(cfg, q) - Below(m) == {b}
    requires forall i: nat :: i < m ==> i in Solved(cfg, sys)
    requires forall i :: m <= i < cfg.k ==> (i in Solved(cfg, sys) <==> m in Solved(cfg, sys))
    ensures Complete(cfg, sys)
  {
    hide Solved, SystemOk, IndexSet;
    SolvedIsClosed(cfg, sys, q, b);
    assert b in IndexSet(cfg, q) && b !in Below(m);
    assert b in Below(cfg.k);
    assert IndexSet(cfg, q) - {b} <= Solved(cfg, sys);
    assert m in Solved(cfg, sys);
    assert forall i :: i in Below(cfg.k) ==> i in Solved(cfg, sys);
  }

  /** The same for runs that hear all first-phase frames but one and lose no frame to a budget. */
  lemma SingleLossRun(cfg: Config, es: seq<Event>, m: nat)
    requires CausalMode(cfg) && NoBudgetDrops(cfg, es) && m < cfg.k
    requires forall q: u32 :: q < cfg.k ==> (q in Heard(cfg, es) <==> q != m)
    ensures var sys := After(cfg, es).acc;
            && (Complete(cfg, sys) <==> exists q :: q in Heard(cfg, es) && Bridges(cfg, q, m))
            && (!Complete(cfg, sys) ==> Solved(cfg, sys) == Below(m))
  {
    hide Solved, IndexSet, SystemOk, Heard, After, Bridges, NoBudgetDrops;
    var sys := After(cfg, es).acc;
    AcceptedAreHeard(cfg, es);
    if Complete(cfg, sys) {
      if forall q :: q in Heard(cfg, es) ==> !Bridges(cfg, q, m) {
        NothingBridges(cfg, sys, m);
      }
    } else {
      SingleLoss(cfg, sys, m);
    }
  }

  /** And under a condition on the input alone. */
  lemma SingleLossAffordable(cfg: Config, es: seq<Event>, m: nat)
    requires CausalMode(cfg) && Affordable(cfg, Heard(cfg, es)) && m < cfg.k
    requires forall q: u32 :: q < cfg.k ==> (q in Heard(cfg, es) <==> q != m)
    ensures var sys := After(cfg, es).acc;
            && (Complete(cfg, sys) <==> exists q :: q in Heard(cfg, es) && Bridges(cfg, q, m))
            && (!Complete(cfg, sys) ==> Solved(cfg, sys) == Below(m))
  {
    hide Solved, Heard, After, Bridges, NoBudgetDrops, Affordable, Complete;
    StaysCovered(cfg, es, Heard(cfg, es));
    SingleLossRun(cfg, es, m);
  }

  /** All first-phase frames together determine every block, in both first-phase modes and whatever else arrived. */
  lemma FirstPhaseDetermines(cfg: Config, qs: set<u32>)
    requires ConfigOk(cfg) && cfg.sysSpan == cfg.k && Below(cfg.k) <= qs
    ensures Determined(cfg, qs) == Below(cfg.k)
  {
    hide Peel, IndexSet;
    PeelLeast(Arrived(cfg, qs), cfg.k, {});
    AllDetermined(cfg, qs, cfg.k);
  }

  lemma {:induction false} AllDetermined(cfg: Config, qs: set<u32>, n: nat)
    requires ConfigOk(cfg) && cfg.sysSpan == cfg.k && Below(cfg.k) <= qs && n <= cfg.k
    requires Closed(Arrived(cfg, qs), Determined(cfg, qs))
    ensures forall b: nat :: b < n ==> b in Determined(cfg, qs)
  {
    hide Determined, Closed, Arrived, ConfigOk;
    if n > 0 {
      AllDetermined(cfg, qs, n - 1);
      NextDetermined(cfg, qs, n - 1);
    }
  }

  /** With every block before it determined, frame `q` of the first phase determines block `q`. */
  lemma NextDetermined(cfg: Config, qs: set<u32>, q: u32)
    requires ConfigOk(cfg) && cfg.sysSpan == cfg.k && Below(cfg.k) <= qs && q < cfg.k
    requires Closed(Arrived(cfg, qs), Determined(cfg, qs)) && forall b: nat :: b < q ==> b in Determined(cfg, qs)
    ensures q in Determined(cfg, qs)
  {
    hide Determined, IndexSet;
    assert q in Below(cfg.k);
    assert IndexSet(cfg, q) in Arrived(cfg, qs);
    if cfg.causal { CausalIndex(cfg, q); } else { SystematicIndex(cfg, q); }
    assert !Reveals(IndexSet(cfg, q), Determined(cfg, qs), q);
  }

  /* ---------- runs of first-phase frames ---------- */

  /** Only first-phase frames, besides frames of a wrong length. */
  ghost predicate FirstPhase(cfg: Config, es: seq<Event>) {
    cfg.sysSpan == cfg.k && forall i :: 0 <= i < |es| && |es[i].block| == cfg.blockLen ==> es[i].q < cfg.k
  }

  lemma HeardFirst(cfg: Config, es: seq<Event>)
    requires FirstPhase(cfg, es)
    ensures Heard(cfg, es) <= Below(cfg.k)
  {
  }

  /** A first-phase frame combines at most two blocks. */
  lemma {:induction false} FewLinks(cfg: Config, qs: set<u32>)
    requires ConfigOk(cfg) && cfg.sysSpan == cfg.k && qs <= Below(cfg.k)
    ensures |Links(cfg, qs)| <= 2 * |qs|
  {
    hide IndexSet, ConfigOk, Links;
    if qs == {} {
      NoLinks(cfg);
    } else {
      var q :| q in qs;
      FewLinks(cfg, qs - {q});
      LinksAdd(cfg, qs - {q}, q);
      assert qs - {q} + {q} == qs;
      AtMostTwo(cfg, q);
    }
  }

  lemma NoLinks(cfg: Config)
    requires ConfigOk(cfg)
    ensures Links(cfg, {}) == {}
  {
  }

  lemma AtMostTwo(cfg: Config, q: u32)
    requires ConfigOk(cfg) && cfg.sysSpan == cfg.k && q < cfg.k
    ensures |IndexSet(cfg, q)| <= 2
  {
    hide IndexSet;
    if cfg.causal { CausalIndex(cfg, q); } else { SystematicIndex(cfg, q); }
  }

  /** The first phase is affordable, so it never exhausts a budget. */
  lemma FirstPhaseNeverDrops(cfg: Config, es: seq<Event>)
    requires ConfigOk(cfg) && FirstPhase(cfg, es)
    ensures Affordable(cfg, Heard(cfg, es)) && NoBudgetDrops(cfg, es)
  {
    hide IndexSet, Links, Heard, NoBudgetDrops;
    var heard := Heard(cfg, es);
    HeardFirst(cfg, es);
    SubsetSize(heard, Below(cfg.k));
    FewLinks(cfg, heard);
    StaysCovered(cfg, es, heard);
  }

  /** Causal mode, first-phase frames only, in any order and with duplicates: the decoded blocks are exactly
      those before the first missing frame, and the stream completes exactly with the `k`-th distinct frame. */
  lemma CausalFirstPhase(cfg: Config, es: seq<Event>, m: nat)
    requires CausalMode(cfg) && FirstPhase(cfg, es) && LeastMissing(Heard(cfg, es), cfg.k, m)
    ensures var a := After(cfg, es);
            && Solved(cfg, a.acc) == Below(m)
            && (Complete(cfg, a.acc) <==> |Heard(cfg, es)| == cfg.k)
            && (Complete(cfg, a.acc) ==> |a.acc| == cfg.k)
            && NoBudgetDrops(cfg, es)
  {
    hide Solved, SystemOk, Run, ConfigOk, Heard, NoBudgetDrops;
    var a, heard := After(cfg, es), Heard(cfg, es);
    FirstPhaseNeverDrops(cfg, es);
    AcceptedAreHeard(cfg, es);
    HeardFirst(cfg, es);
    SubsetSize(heard, Below(cfg.k));
    AllHeard(cfg.k, heard, m);
    if Complete(cfg, a.acc) {
      TakesKFrames(cfg, es);
    } else {
      FirstPhaseSolvesPrefix(cfg, a.acc, m);
    }
    SubsetSize(a.acc.Keys, heard);
  }

  lemma AllHeard(k: nat, heard: set<nat>, m: nat)
    requires heard <= Below(k) && LeastMissing(heard, k, m)
    ensures |heard| == k <==> m == k
    ensures |heard| == k ==> Below(m) == Below(k)
  {
    SubsetSize(heard, Below(k));
    if m == k {
      SubsetSize(Below(k), heard);
    } else {
      assert m in Below(k);
    }
  }

  /* ---------- systematic mode ---------- */

  /** Systematic mode, first-phase frames only: exactly the blocks heard are decoded. */
  lemma SystematicFirstPhase(cfg: Config, es: seq<Event>)
    requires SystematicMode(cfg) && FirstPhase(cfg, es)
    ensures var a := After(cfg, es);
            && Solved(cfg, a.acc) == Heard(cfg, es) && NoBudgetDrops(cfg, es)
            && (Complete(cfg, a.acc) <==> |Heard(cfg, es)| == cfg.k)
  {
    hide Solved, SystemOk, Run, ConfigOk, Heard, NoBudgetDrops;
    var a, heard := After(cfg, es), Heard(cfg, es);
    FirstPhaseNeverDrops(cfg, es);
    AcceptedAreHeard(cfg, es);
    HeardFirst(cfg, es);
    SubsetSize(heard, Below(cfg.k));
    if Complete(cfg, a.acc) {
      TakesKFrames(cfg, es);
    } else {
      SinglesSolve(cfg, a.acc);
    }
  }

  lemma SinglesSolve(cfg: Config, sys: System)
    requires SystematicMode(cfg) && SystemOk(cfg, sys) && sys.Keys <= Below(cfg.k)
    ensures Solved(cfg, sys) == sys.Keys
  {
    hide Solved, IndexSet;
    forall q | q in sys ensures q in Solved(cfg, sys) {
      SystematicIndex(cfg, q);
      SolvedIsClosed(cfg, sys, q, q);
    }
    forall q: u32, b: nat | q in sys ensures !Reveals(IndexSet(cfg, q), sys.Keys, b) {
      SystematicIndex(cfg, q);
    }
    SolvedIsLeast(cfg, sys, sys.Keys);
  }
}
