/** Whole runs of the decoder: what holds after ANY sequence of frames (dropped,
    duplicated, reordered, of any content), on the reference decoder of
    Codec.dfy and, through `Feed`, on the imperative one. */
module Runs {
  import opened Common
  import opened Words
  import opened Sets
  import opened Modular
  import opened Peeling
  import opened Equations
  import opened Codec
  import Capacity
  import opened Decoder

  datatype Event = Event(q: u32, block: seq<bv8>)

  ghost function Run(cfg: Config, a: Abs, es: seq<Event>): (r: Abs)
    requires ConfigOk(cfg) && SystemOk(cfg, a.acc)
    ensures SystemOk(cfg, r.acc)
  {
    if es == [] then a
    else Step(cfg, Run(cfg, a, es[..|es| - 1]), es[|es| - 1].q, es[|es| - 1].block)
  }

  /** The state after receiving `es` from the start. */
  ghost function After(cfg: Config, es: seq<Event>): (r: Abs)
    requires ConfigOk(cfg)
    ensures SystemOk(cfg, r.acc)
  {
    Run(cfg, EMPTY_ABS, es)
  }

  lemma RunOne(cfg: Config, a: Abs, e: Event)
    requires ConfigOk(cfg) && SystemOk(cfg, a.acc)
    ensures Run(cfg, a, [e]) == Step(cfg, a, e.q, e.block)
  {
    hide Step, ConfigOk, SystemOk;
    assert [e][..0] == [];
  }

  lemma {:induction false} RunAppend(cfg: Config, a: Abs, es: seq<Event>, fs: seq<Event>)
    requires ConfigOk(cfg) && SystemOk(cfg, a.acc)
    ensures Run(cfg, a, es + fs) == Run(cfg, Run(cfg, a, es), fs)
  {
    hide Step, ConfigOk, SystemOk;
    if fs == [] {
      assert es + fs == es;
    } else {
      var n := |fs| - 1;
      RunAppend(cfg, a, es, fs[..n]);
      assert (es + fs)[..|es| + n] == es + fs[..n];
      assert (es + fs)[|es| + n] == fs[n];
    }
  }

  /* ---------- resource bounds ---------- */

  lemma SolvedGrows(cfg: Config, sys: System, more: System)
    requires ConfigOk(cfg) && SystemOk(cfg, sys) && SystemOk(cfg, more) && sys.Keys <= more.Keys
    ensures Solved(cfg, sys) <= Solved(cfg, more)
  {
    hide ConfigOk, Peel, IndexSet;
    FamilyWithin(cfg, sys);
    FamilyWithin(cfg, more);
    forall e | e in FamilyOf(sys) ensures e in FamilyOf(more) {
      var q :| q in sys && sys[q].idx == e;
      assert more[q].idx == e;
    }
    PeelMonotone(FamilyOf(sys), FamilyOf(more), cfg.k);
  }

  ghost function Part(sys: System, keys: set<nat>): System {
    map q | q in sys && q in keys :: sys[q]
  }

  /** The `stored` equations in `keys` are the ones with a slot; the others were redundant. */
  ghost predicate Carries(cfg: Config, a: Abs, keys: set<nat>)
    requires ConfigOk(cfg) && SystemOk(cfg, a.acc)
  {
    && keys <= a.acc.Keys && |keys| == a.stored
    && forall q :: q in a.acc && q !in keys ==> a.acc[q].idx <= Solved(cfg, Part(a.acc, keys))
  }

  /** The stored equations alone determine as much as all accepted ones, one block each. */
  lemma CarriesAll(cfg: Config, a: Abs, keys: set<nat>)
    requires ConfigOk(cfg) && SystemOk(cfg, a.acc) && Carries(cfg, a, keys)
    ensures Solved(cfg, Part(a.acc, keys)) == Solved(cfg, a.acc)
    ensures |Solved(cfg, a.acc)| <= a.stored <= |a.acc|
  {
    hide ConfigOk, Peel, IndexSet;
    var part := Part(a.acc, keys);
    SolvedGrows(cfg, part, a.acc);
    FamilyWithin(cfg, part);
    FamilyWithin(cfg, a.acc);
    var s := Solved(cfg, part);
    PeelLeast(FamilyOf(part), cfg.k, s);
    forall e, b | e in FamilyOf(a.acc) ensures !Reveals(e, s, b) {
      var q :| q in a.acc && a.acc[q].idx == e;
      if q in keys {
        assert part[q].idx == e;
      }
    }
    PeelLeast(FamilyOf(a.acc), cfg.k, s);
    PeelCount(FamilyOf(part), cfg.k);
    FamilySize(part, part.Keys);
    assert part.Keys == keys;
    SubsetSize(keys, a.acc.Keys);
  }

  lemma {:induction false} FamilySize(sys: System, keys: set<nat>)
    requires keys <= sys.Keys
    ensures |set q | q in keys :: sys[q].idx| <= |keys|
    ensures keys == sys.Keys ==> FamilyOf(sys) == set q | q in keys :: sys[q].idx
  {
    if keys != {} {
      var q :| q in keys;
      FamilySize(sys, keys - {q});
      assert (set p | p in keys :: sys[p].idx) == (set p | p in keys - {q} :: sys[p].idx) + {sys[q].idx};
    }
  }

  /** The resource invariant of every run. */
  ghost predicate Bounded(cfg: Config, a: Abs)
    requires ConfigOk(cfg) && SystemOk(cfg, a.acc)
  {
    a.stored <= 4 * cfg.k && a.edges <= 64 * cfg.k && exists keys :: Carries(cfg, a, keys)
  }

  lemma PartAdd(sys: System, keys: set<nat>, q: nat, eqn: Equation)
    requires q !in sys && keys <= sys.Keys
    ensures Part(sys[q := eqn], keys) == Part(sys, keys)
    ensures Part(sys[q := eqn], keys).Keys <= Part(sys[q := eqn], keys + {q}).Keys
  {
  }

  lemma CarriesSame(cfg: Config, a: Abs, keys: set<nat>, q: u32, eqn: Equation, a': Abs)
    requires ConfigOk(cfg) && SystemOk(cfg, a.acc) && Carries(cfg, a, keys) && q !in a.acc
    requires a'.acc == a.acc[q := eqn] && SystemOk(cfg, a'.acc)
    requires a'.stored == a.stored && eqn.idx <= Solved(cfg, a.acc)
    ensures Carries(cfg, a', keys)
  {
    hide ConfigOk, Solved, IndexSet, Part;
    CarriesAll(cfg, a, keys);
    PartAdd(a.acc, keys, q, eqn);
  }

  lemma CarriesMore(cfg: Config, a: Abs, keys: set<nat>, q: u32, eqn: Equation, a': Abs)
    requires ConfigOk(cfg) && SystemOk(cfg, a.acc) && Carries(cfg, a, keys) && q !in a.acc
    requires a'.acc == a.acc[q := eqn] && SystemOk(cfg, a'.acc) && a'.stored == a.stored + 1
    ensures Carries(cfg, a', keys + {q})
  {
    hide ConfigOk, Solved, IndexSet;
    PartAdd(a.acc, keys, q, eqn);
    SolvedGrows(cfg, Part(a.acc, keys), Part(a'.acc, keys + {q}));
  }

  lemma AcceptBounded(cfg: Config, a: Abs, q: u32, block: seq<bv8>)
    requires ConfigOk(cfg) && SystemOk(cfg, a.acc) && Bounded(cfg, a) && q !in a.acc && !OverBudget(cfg, a, q)
    ensures SystemOk(cfg, Accept(cfg, a, q, block).acc) && Bounded(cfg, Accept(cfg, a, q, block))
  {
    hide ConfigOk, Solved, IndexSet, WordsOf, WordCount, SystemOk, Part;
    var keys :| Carries(cfg, a, keys);
    var a' := Accept(cfg, a, q, block);
    AcceptKeepsOk(cfg, a, q, block);
    if a'.stored == a.stored {
      CarriesSame(cfg, a, keys, q, a'.acc[q], a');
    } else {
      CarriesMore(cfg, a, keys, q, a'.acc[q], a');
    }
  }

  lemma {:induction false} RunBounded(cfg: Config, a: Abs, es: seq<Event>)
    requires ConfigOk(cfg) && SystemOk(cfg, a.acc) && Bounded(cfg, a)
    ensures Bounded(cfg, Run(cfg, a, es))
  {
    hide Accept, OverBudget, Complete, Solved, SystemOk, ConfigOk;
    if es != [] {
      var n := |es| - 1;
      RunBounded(cfg, a, es[..n]);
      var b := Run(cfg, a, es[..n]);
      StepBounded(cfg, b, es[n].q, es[n].block);
    }
  }

  lemma StepBounded(cfg: Config, a: Abs, q: u32, block: seq<bv8>)
    requires ConfigOk(cfg) && SystemOk(cfg, a.acc) && Bounded(cfg, a)
    ensures Bounded(cfg, Step(cfg, a, q, block))
  {
    hide Accept, OverBudget, Complete, Solved, SystemOk, ConfigOk, Part;
    var keys :| Carries(cfg, a, keys);
    var b := Step(cfg, a, q, block);
    if b.acc == a.acc && b.stored == a.stored && b.edges == a.edges {
      assert Carries(cfg, b, keys);
    } else {
      AcceptBounded(cfg, a, q, block);
    }
  }

  /** The sequence numbers a run delivers in frames of the right length, in whatever order and multiplicity. */
  ghost function Heard(cfg: Config, es: seq<Event>): set<u32> {
    set i | 0 <= i < |es| && |es[i].block| == cfg.blockLen :: es[i].q
  }

  /** Frames of a wrong length; they count as dropped whatever the state. */
  function BadLengths(cfg: Config, es: seq<Event>): nat {
    if es == [] then 0
    else BadLengths(cfg, es[..|es| - 1]) + if |es[|es| - 1].block| == cfg.blockLen then 0 else 1
  }

  /** No frame of the right length was dropped. */
  ghost predicate NoBudgetDrops(cfg: Config, es: seq<Event>)
    requires ConfigOk(cfg)
  {
    After(cfg, es).dropped == BadLengths(cfg, es)
  }

  /** Until a run completes, every frame of it is accepted, a duplicate, or dropped. */
  lemma {:induction false} EveryFrameCounts(cfg: Config, es: seq<Event>)
    requires ConfigOk(cfg) && !Complete(cfg, After(cfg, es).acc)
    ensures |es| == |After(cfg, es).acc| + After(cfg, es).duplicates + After(cfg, es).dropped
  {
    hide Complete, OverBudget, ConfigOk, SystemOk, Unsolved, NewEdges;
    if es != [] {
      EveryFrameCounts(cfg, es[..|es| - 1]);
    }
  }

  /** After that, nothing changes but the count of frames of a wrong length. */
  lemma {:induction false} CompleteRests(cfg: Config, es: seq<Event>, fs: seq<Event>)
    requires ConfigOk(cfg) && Complete(cfg, After(cfg, es).acc)
    ensures After(cfg, es + fs) == After(cfg, es).(dropped := After(cfg, es).dropped + BadLengths(cfg, fs))
  {
    hide Complete, OverBudget, ConfigOk, SystemOk;
    if fs == [] {
      assert es + fs == es;
    } else {
      var n := |fs| - 1;
      CompleteRests(cfg, es, fs[..n]);
      assert (es + fs)[..|es| + n] == es + fs[..n];
      assert (es + fs)[|es| + n] == fs[n];
    }
  }

  lemma HeardNext(cfg: Config, es: seq<Event>)
    requires es != []
    ensures var last := es[|es| - 1];
            Heard(cfg, es) == Heard(cfg, es[..|es| - 1]) + if |last.block| == cfg.blockLen then {last.q} else {}
  {
    var n := |es| - 1;
    var front := es[..n];
    forall q | q in Heard(cfg, es) && !(|es[n].block| == cfg.blockLen && q == es[n].q) ensures q in Heard(cfg, front) {
      var i :| 0 <= i < |es| && |es[i].block| == cfg.blockLen && es[i].q == q;
      assert front[i] == es[i];
    }
    forall q | q in Heard(cfg, front) ensures q in Heard(cfg, es) {
      var i :| 0 <= i < n && |front[i].block| == cfg.blockLen && front[i].q == q;
      assert es[i] == front[i];
    }
  }

  lemma NothingHeard(cfg: Config)
    ensures Heard(cfg, []) == {}
  {
  }

  /** Only delivered sequence numbers are accepted; without budget drops all of them are, until the run is complete. */
  lemma {:induction false} AcceptedAreHeard(cfg: Config, es: seq<Event>)
    requires ConfigOk(cfg)
    ensures After(cfg, es).acc.Keys <= Heard(cfg, es) && BadLengths(cfg, es) <= After(cfg, es).dropped
    ensures NoBudgetDrops(cfg, es) && !Complete(cfg, After(cfg, es).acc) ==> After(cfg, es).acc.Keys == Heard(cfg, es)
  {
    hide Complete, OverBudget, ConfigOk, SystemOk, Heard;
    if es == [] {
      NothingHeard(cfg);
    } else {
      HeardNext(cfg, es);
      AcceptedAreHeard(cfg, es[..|es| - 1]);
    }
  }

  lemma EmptyBounded(cfg: Config)
    requires ConfigOk(cfg)
    ensures SystemOk(cfg, EMPTY_ABS.acc) && Bounded(cfg, EMPTY_ABS)
  {
    assert Carries(cfg, EMPTY_ABS, {});
  }

  /** In every run, of any frames: each solved block has consumed a stored equation of its own, stored
      equations are accepted ones, and both budgets hold. */
  lemma ResourceBounds(cfg: Config, es: seq<Event>)
    requires ConfigOk(cfg)
    ensures var a := After(cfg, es);
            && |Solved(cfg, a.acc)| <= a.stored <= |a.acc| <= |Heard(cfg, es)|
            && a.stored <= 4 * cfg.k && a.edges <= 64 * cfg.k
  {
    hide Solved, IndexSet, ConfigOk, SystemOk, Part, Step, Heard;
    var a := After(cfg, es);
    EmptyBounded(cfg);
    RunBounded(cfg, EMPTY_ABS, es);
    var keys :| Carries(cfg, a, keys);
    CarriesAll(cfg, a, keys);
    AcceptedAreHeard(cfg, es);
    SubsetSize(a.acc.Keys, Heard(cfg, es));
  }

  /** No run completes with fewer than `k` distinct sequence numbers. */
  lemma TakesKFrames(cfg: Config, es: seq<Event>)
    requires ConfigOk(cfg) && Complete(cfg, After(cfg, es).acc)
    ensures cfg.k <= |After(cfg, es).acc| <= |Heard(cfg, es)|
  {
    hide Solved, IndexSet, SystemOk, Step, Heard;
    ResourceBounds(cfg, es);
  }

  /** Two runs that hear the same sequence numbers and lose none of them to a budget agree, whatever the order of
      arrival, the duplicates and the frames of a wrong length: both complete, or both stall with the same solved
      blocks. */
  lemma OrderIndependent(cfg: Config, es: seq<Event>, fs: seq<Event>)
    requires ConfigOk(cfg) && Heard(cfg, es) == Heard(cfg, fs)
    requires NoBudgetDrops(cfg, es) && NoBudgetDrops(cfg, fs)
    ensures Solved(cfg, After(cfg, es).acc) == Solved(cfg, After(cfg, fs).acc)
    ensures Complete(cfg, After(cfg, es).acc) <==> Complete(cfg, After(cfg, fs).acc)
  {
    NoLess(cfg, es, fs);
    NoLess(cfg, fs, es);
  }

  /** Without budget drops, hearing more never solves less. */
  lemma NoLess(cfg: Config, es: seq<Event>, fs: seq<Event>)
    requires ConfigOk(cfg) && Heard(cfg, es) <= Heard(cfg, fs) && NoBudgetDrops(cfg, fs)
    ensures Solved(cfg, After(cfg, es).acc) <= Solved(cfg, After(cfg, fs).acc)
  {
    hide Solved, IndexSet, ConfigOk, SystemOk, Step, Heard, Run;
    AcceptedAreHeard(cfg, es);
    AcceptedAreHeard(cfg, fs);
    if !Complete(cfg, After(cfg, fs).acc) {
      SolvedGrows(cfg, After(cfg, es).acc, After(cfg, fs).acc);
    }
  }

  /* ---------- what arrived, accepted or not ---------- */

  /** The index sets of the frames that arrived. */
  ghost function Arrived(cfg: Config, qs: set<u32>): (fam: Family)
    requires ConfigOk(cfg)
    ensures Within(fam, cfg.k)
  {
    set q | q in qs :: IndexSet(cfg, q)
  }

  /** What peeling all of them would determine. */
  ghost function Determined(cfg: Config, qs: set<u32>): (r: set<nat>)
    requires ConfigOk(cfg)
    ensures r <= Below(cfg.k)
  {
    Peel(Arrived(cfg, qs), cfg.k)
  }

  lemma AcceptedArrived(cfg: Config, sys: System, qs: set<u32>)
    requires ConfigOk(cfg) && SystemOk(cfg, sys) && sys.Keys <= qs
    ensures FamilyOf(sys) <= Arrived(cfg, qs)
    ensures sys.Keys == qs ==> FamilyOf(sys) == Arrived(cfg, qs)
  {
    hide IndexSet, ConfigOk;
    forall e | e in FamilyOf(sys) ensures e in Arrived(cfg, qs) {
      var q :| q in sys && sys[q].idx == e;
    }
    if sys.Keys == qs {
      forall e | e in Arrived(cfg, qs) ensures e in FamilyOf(sys) {
        var q :| q in qs && IndexSet(cfg, q) == e;
        assert sys[q].idx == e;
      }
    }
  }

  /** In every run the decoder solves no more than what arrived determines, and exactly that unless a budget made it
      drop a frame. */
  lemma SolvedFromArrived(cfg: Config, es: seq<Event>)
    requires ConfigOk(cfg)
    ensures Solved(cfg, After(cfg, es).acc) <= Determined(cfg, Heard(cfg, es))
    ensures NoBudgetDrops(cfg, es) ==> Solved(cfg, After(cfg, es).acc) == Determined(cfg, Heard(cfg, es))
  {
    hide IndexSet, ConfigOk, SystemOk, Heard, Run, Peel, NoBudgetDrops, Arrived;
    var sys, qs := After(cfg, es).acc, Heard(cfg, es);
    AcceptedAreHeard(cfg, es);
    AcceptedArrived(cfg, sys, qs);
    FamilyWithin(cfg, sys);
    PeelMonotone(FamilyOf(sys), Arrived(cfg, qs), cfg.k);
  }

  /* ---------- inputs that stay within the budgets ---------- */

  /** The blocks that the frames of `qs` combine, frame by frame: one link per frame and block. */
  ghost function Links(cfg: Config, qs: set<u32>): set<(u32, nat)>
    requires ConfigOk(cfg)
  {
    set q, b | q in qs && b in IndexSet(cfg, q) :: (q, b)
  }

  /** At most `4 * k` frames with at most `64 * k` links. */
  ghost predicate Affordable(cfg: Config, qs: set<u32>)
    requires ConfigOk(cfg)
  {
    |qs| <= 4 * cfg.k && |Links(cfg, qs)| <= 64 * cfg.k
  }

  ghost function LinksOf(q: u32, e: set<nat>): set<(u32, nat)> {
    set b | b in e :: (q, b)
  }

  lemma {:induction false} LinksOfSize(q: u32, e: set<nat>)
    ensures |LinksOf(q, e)| == |e|
  {
    if e != {} {
      var b :| b in e;
      LinksOfSize(q, e - {b});
      assert LinksOf(q, e) == LinksOf(q, e - {b}) + {(q, b)};
    }
  }

  lemma LinksAdd(cfg: Config, qs: set<u32>, q: u32)
    requires ConfigOk(cfg) && q !in qs
    ensures |Links(cfg, qs + {q})| == |Links(cfg, qs)| + |IndexSet(cfg, q)|
  {
    hide IndexSet, ConfigOk;
    LinksOfSize(q, IndexSet(cfg, q));
    assert Links(cfg, qs + {q}) == Links(cfg, qs) + LinksOf(q, IndexSet(cfg, q));
  }

  lemma LinksGrow(cfg: Config, few: set<u32>, many: set<u32>)
    requires ConfigOk(cfg) && few <= many
    ensures |few| <= |many| && |Links(cfg, few)| <= |Links(cfg, many)|
  {
    hide IndexSet, ConfigOk;
    SubsetSize(few, many);
    SubsetSize(Links(cfg, few), Links(cfg, many));
  }

  lemma AcceptCounts(cfg: Config, a: Abs, q: u32, block: seq<bv8>)
    requires ConfigOk(cfg) && SystemOk(cfg, a.acc) && q !in a.acc
    ensures var r := Accept(cfg, a, q, block);
            && r.dropped == a.dropped && r.stored <= a.stored + 1 && r.edges == a.edges + NewEdges(cfg, a.acc, q)
            && r.acc.Keys == a.acc.Keys + {q} && |r.acc| == |a.acc| + 1
  {
    hide IndexSet, SystemOk, Solved, ConfigOk, NewEdges, WordsOf, Unsolved;
    assert Accept(cfg, a, q, block).acc.Keys == a.acc.Keys + {q};
  }

  /** What has been charged so far is covered by the accepted frames and their links. */
  ghost predicate Covered(cfg: Config, a: Abs, heard: set<u32>)
    requires ConfigOk(cfg)
  {
    exists qs :: CoveredBy(cfg, a, heard, qs)
  }

  ghost predicate CoveredBy(cfg: Config, a: Abs, heard: set<u32>, qs: set<u32>)
    requires ConfigOk(cfg)
  {
    qs == a.acc.Keys && qs <= heard && a.stored <= |qs| && a.edges <= |Links(cfg, qs)|
  }

  lemma CoveredAccept(cfg: Config, a: Abs, q: u32, block: seq<bv8>, heard: set<u32>)
    requires ConfigOk(cfg) && SystemOk(cfg, a.acc) && q !in a.acc && q in heard && Covered(cfg, a, heard)
    requires Affordable(cfg, heard)
    ensures !OverBudget(cfg, a, q) && Covered(cfg, Accept(cfg, a, q, block), heard)
  {
    hide SystemOk, Solved, ConfigOk, IndexSet, Links, Accept;
    var qs :| CoveredBy(cfg, a, heard, qs);
    LinksAdd(cfg, qs, q);
    LinksGrow(cfg, qs + {q}, heard);
    SubsetSize(IndexSet(cfg, q) - Solved(cfg, a.acc), IndexSet(cfg, q));
    AcceptCounts(cfg, a, q, block);
    var r := Accept(cfg, a, q, block);
    assert CoveredBy(cfg, r, heard, qs + {q});
  }

  lemma StepCovered(cfg: Config, a: Abs, q: u32, block: seq<bv8>, heard: set<u32>)
    requires ConfigOk(cfg) && SystemOk(cfg, a.acc) && Covered(cfg, a, heard) && Affordable(cfg, heard)
    requires |block| == cfg.blockLen ==> q in heard
    ensures Covered(cfg, Step(cfg, a, q, block), heard)
    ensures Step(cfg, a, q, block).dropped == a.dropped + if |block| == cfg.blockLen then 0 else 1
  {
    hide Complete, OverBudget, ConfigOk, SystemOk, Accept, Affordable, Links;
    var qs :| CoveredBy(cfg, a, heard, qs);
    var r := Step(cfg, a, q, block);
    if |block| == cfg.blockLen && q !in a.acc && !Complete(cfg, a.acc) {
      CoveredAccept(cfg, a, q, block, heard);
      AcceptCounts(cfg, a, q, block);
    } else {
      assert CoveredBy(cfg, r, heard, qs);
    }
  }

  lemma {:induction false} StaysCovered(cfg: Config, es: seq<Event>, heard: set<u32>)
    requires ConfigOk(cfg) && Heard(cfg, es) <= heard && Affordable(cfg, heard)
    ensures Covered(cfg, After(cfg, es), heard) && NoBudgetDrops(cfg, es)
  {
    hide Step, ConfigOk, SystemOk, Heard, Affordable, Covered;
    if es == [] {
      NothingCovered(cfg, heard);
    } else {
      var n := |es| - 1;
      HeardNext(cfg, es);
      StaysCovered(cfg, es[..n], heard);
      StepCovered(cfg, After(cfg, es[..n]), es[n].q, es[n].block, heard);
    }
  }

  lemma NothingCovered(cfg: Config, heard: set<u32>)
    requires ConfigOk(cfg)
    ensures Covered(cfg, EMPTY_ABS, heard)
  {
    assert CoveredBy(cfg, EMPTY_ABS, heard, {});
  }

  /** A condition on the input alone: as long as the numbers heard are few and combine few blocks, in total, no budget
      is ever exceeded, and so the order of arrival does not matter. */
  lemma AffordableRunsAgree(cfg: Config, es: seq<Event>, fs: seq<Event>)
    requires ConfigOk(cfg) && Heard(cfg, es) == Heard(cfg, fs) && Affordable(cfg, Heard(cfg, es))
    ensures NoBudgetDrops(cfg, es)
    ensures Solved(cfg, After(cfg, es).acc) == Solved(cfg, After(cfg, fs).acc)
    ensures Complete(cfg, After(cfg, es).acc) <==> Complete(cfg, After(cfg, fs).acc)
  {
    hide Solved, Complete, Affordable, Run;
    StaysCovered(cfg, es, Heard(cfg, es));
    StaysCovered(cfg, fs, Heard(cfg, fs));
    OrderIndependent(cfg, es, fs);
  }

  /** Likewise, under the condition on the input: the run completes exactly when peeling what arrived determines every
      block. */
  lemma CompleteExactlyWhenDetermined(cfg: Config, es: seq<Event>)
    requires ConfigOk(cfg) && Affordable(cfg, Heard(cfg, es))
    ensures Complete(cfg, After(cfg, es).acc) <==> Determined(cfg, Heard(cfg, es)) == Below(cfg.k)
  {
    hide Solved, Determined, Affordable, Run;
    StaysCovered(cfg, es, Heard(cfg, es));
    SolvedFromArrived(cfg, es);
  }

  /* ---------- what the decoded blocks are ---------- */

  /** Frames of the honest encoder of `payload`, and frames of a wrong length. */
  ghost predicate Honest(cfg: Config, payload: seq<bv8>, es: seq<Event>)
    requires ConfigOk(cfg) && |payload| == cfg.totalLen
  {
    forall i :: 0 <= i < |es| && |es[i].block| == cfg.blockLen ==> es[i].block == Encoded(cfg, payload, es[i].q)
  }

  lemma StepSatisfies(cfg: Config, x: seq<Block>, a: Abs, q: u32, block: seq<bv8>)
    requires ConfigOk(cfg) && SystemOk(cfg, a.acc) && Satisfies(x, a.acc, cfg.k, WordCount(cfg))
    requires |block| == cfg.blockLen ==> WordsOf(block, WordCount(cfg)) == Sum(x, IndexSet(cfg, q), WordCount(cfg))
    ensures Satisfies(x, Step(cfg, a, q, block).acc, cfg.k, WordCount(cfg))
  {
    hide Complete, OverBudget, ConfigOk, WordCount, Sum, WordsOf, IndexSet, IsSource, SystemOk, Unsolved, NewEdges;
  }

  lemma {:induction false} HonestSatisfies(cfg: Config, payload: seq<bv8>, es: seq<Event>)
    requires ConfigOk(cfg) && |payload| == cfg.totalLen && Honest(cfg, payload, es)
    ensures Satisfies(SourceOf(cfg, payload), After(cfg, es).acc, cfg.k, WordCount(cfg))
  {
    hide Step, ConfigOk, Encoded, SourceOf, WordCount, Sum, WordsOf, IndexSet, IsSource, SystemOk;
    if es != [] {
      var e, before := es[|es| - 1], es[..|es| - 1];
      HonestSatisfies(cfg, payload, before);
      EncodedMeansSum(cfg, payload, e.q);
      StepSatisfies(cfg, SourceOf(cfg, payload), After(cfg, before), e.q, e.block);
    }
  }

  /** Two source vectors that satisfy the same equations agree on every block that peeling determines. */
  lemma PeeledBlocksAgree(cfg: Config, sys: System, x: seq<Block>, y: seq<Block>, b: nat)
    requires ConfigOk(cfg) && SystemOk(cfg, sys) && b in Solved(cfg, sys)
    requires Satisfies(x, sys, cfg.k, WordCount(cfg)) && Satisfies(y, sys, cfg.k, WordCount(cfg))
    ensures x[b] == y[b]
  {
    hide ConfigOk, IndexSet, WordCount, Sum, Peel;
    var same := set i: nat | i < cfg.k && x[i] == y[i];
    var w := WordCount(cfg);
    FamilyWithin(cfg, sys);
    forall e, i | e in FamilyOf(sys) ensures !Reveals(e, same, i) {
      if Reveals(e, same, i) {
        var q :| q in sys && sys[q].idx == e;
        OneUnknownLeft(x, y, e, i, w);
      }
    }
    PeelLeast(FamilyOf(sys), cfg.k, same);
  }

  lemma OneUnknownLeft(x: seq<Block>, y: seq<Block>, e: set<nat>, i: nat, w: nat)
    requires IsSource(x, |x|, w) && IsSource(y, |y|, w) && |x| == |y| && i in e && e <= Below(|x|)
    requires forall j :: j in e - {i} ==> x[j] == y[j]
    requires Sum(x, e, w) == Sum(y, e, w)
    ensures x[i] == y[i]
  {
    var rest := e - {i};
    SumRemove(x, e, i, w);
    SumRemove(y, e, i, w);
    SumToAgree(x, y, rest, |x|, w);
    XorBack(Sum(x, e, w), x[i], y[i]);
  }

  lemma {:induction false} SumToAgree(x: seq<Block>, y: seq<Block>, e: set<nat>, n: nat, w: nat)
    requires IsSource(x, |x|, w) && IsSource(y, |y|, w) && n <= |x| == |y|
    requires forall j :: j in e && j < n ==> x[j] == y[j]
    ensures SumTo(x, e, n, w) == SumTo(y, e, n, w)
  {
    if n > 0 { SumToAgree(x, y, e, n - 1, w); }
  }

  lemma XorBack(s: Block, u: Block, v: Block)
    requires |s| == |u| == |v| && Xor(s, u) == Xor(s, v)
    ensures u == v
  {
    XorComm(s, u);
    XorComm(s, v);
    XorCancel(u, s);
    XorCancel(v, s);
  }

  /** A completed run of honest frames determines the payload. */
  lemma HonestPayload(cfg: Config, payload: seq<bv8>, es: seq<Event>, out: seq<bv8>)
    requires ConfigOk(cfg) && |payload| == cfg.totalLen && Honest(cfg, payload, es)
    requires forall x :: Satisfies(x, After(cfg, es).acc, cfg.k, WordCount(cfg)) ==> out == Join(cfg, x, cfg.k)
    ensures out == payload
  {
    HonestSatisfies(cfg, payload, es);
    JoinSource(cfg, payload);
  }

  /* ---------- the imperative decoder over whole runs ---------- */

  /** A receive loop around one decoder. */
  method Feed(d: LtDecoder, es: seq<Event>)
    requires d.Valid()
    modifies d, d.seen
    ensures d.Valid() && d.View() == Run(d.cfg, old(d.View()), es)
  {
    hide LtDecoder.View, LtDecoder.Valid, Step, SystemOk, ConfigOk;
    d.ViewOk();
    assert es[..0] == [];
    for i := 0 to |es|
      invariant d.Valid() && ConfigOk(d.cfg) && SystemOk(d.cfg, old(d.View()).acc)
      invariant d.View() == Run(d.cfg, old(d.View()), es[..i])
    {
      d.AddFrame(es[i].q, es[i].block);
      assert es[..i + 1][..i] == es[..i];
    }
    assert es[..|es|] == es;
  }

  /** Decoder, receive loop and assembly together: a result comes out exactly when peeling the accepted
      equations determines every block, and for honest frames it is the payload. */
  method Decode(cfg: Config, es: seq<Event>) returns (r: Result<Option<seq<bv8>>>)
    requires cfg.sysSpan == 0 || cfg.sysSpan == cfg.k
    ensures r.Ok? <==> ConfigOk(cfg)
    ensures r.Ok? ==> (r.value.Some? <==> Complete(cfg, After(cfg, es).acc))
    ensures r.Ok? && r.value.Some? ==>
              forall payload :: |payload| == cfg.totalLen && Honest(cfg, payload, es) ==> r.value.value == payload
  {
    hide LtDecoder.Valid, Run, Complete, SystemOk, Honest, Satisfies, Join, Capacity.CeilDiv;
    var made := TryNewMode(cfg.k, cfg.blockLen, cfg.session, cfg.totalLen, cfg.sysSpan, cfg.causal, cfg.libm);
    if made.Err? {
      return Err(made.error);
    }
    var d := made.value;
    d.ViewOk();
    Feed(d, es);
    var out := d.Assemble();
    r := Ok(out);
    if out.Some? {
      forall payload | |payload| == cfg.totalLen && Honest(cfg, payload, es) ensures out.value == payload {
        HonestPayload(cfg, payload, es, out.value);
      }
    }
  }
}
