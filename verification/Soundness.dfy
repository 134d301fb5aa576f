/** The full invariant of the equation store, step by step: structure, peeling
    progress, the meaning of every slot for EVERY source vector that satisfies
    the accepted equations, and zero padding. */
module Soundness {
  import opened Common
  import opened Words
  import opened Sets
  import opened Equations
  import opened Cascade

  /** Whatever the source was, if it satisfies the accepted equations then every slot holds what its role says. */
  ghost predicate AllMean(c: Store, sys: System, k: nat, w: nat)
    requires |c.rows| == |c.slots|
  {
    forall x :: Satisfies(x, sys, k, w) ==> Means(c, x, w)
  }

  ghost predicate AllPadded(c: Store, len: nat) {
    forall s :: 0 <= s < |c.slots| ==> ZeroPadded(c.slots[s], len)
  }

  ghost predicate Sound(c: Store, k: nat, w: nat, sys: System, len: nat, cur: nat, todo: set<nat>) {
    Inv(c, k, w, FamilyOf(sys), cur, todo) && AllMean(c, sys, k, w) && AllPadded(c, len)
  }

  /** Nothing received yet. */
  function EmptyStore(k: nat): Store {
    Store(seq(k, _ => None), [], seq(k, _ => []), [], [], [])
  }

  lemma EmptySound(k: nat, w: nat, len: nat)
    ensures Sound(EmptyStore(k), k, w, map[], len, 0, {})
    ensures Done(EmptyStore(k)) == {} && Total(EmptyStore(k).byBlock) == 0
  {
    var c := EmptyStore(k);
    assert Done(c) == {};
    TotalEmpty(c.byBlock);
  }

  lemma {:induction false} TotalEmpty(lists: seq<seq<nat>>)
    requires forall b :: 0 <= b < |lists| ==> lists[b] == []
    ensures Total(lists) == 0
  {
    if lists != [] { TotalEmpty(lists[..|lists| - 1]); }
  }

  lemma PopSpentSound(c: Store, k: nat, w: nat, sys: System, len: nat, cur: nat)
    requires Sound(c, k, w, sys, len, cur, {}) && c.queue != []
    requires c.solved[Last(c).0].Some?
    ensures Sound(PopSpent(c), k, w, sys, len, cur, {}) && Done(PopSpent(c)) == Done(c)
  {
    PopSpentKeeps(c, k, w, FamilyOf(sys), cur);
    forall x | Satisfies(x, sys, k, w) ensures Means(PopSpent(c), x, w) {
      PopSpentMeans(c, x, w);
    }
  }

  lemma PopSolveSound(c: Store, k: nat, w: nat, sys: System, len: nat, cur: nat)
    requires Sound(c, k, w, sys, len, cur, {}) && c.queue != []
    requires c.solved[Last(c).0].None?
    ensures var b := Last(c).0;
            Sound(PopSolve(c), k, w, sys, len, b, Members(c.byBlock[b])) && Done(PopSolve(c)) == Done(c) + {b}
  {
    PopSolveKeeps(c, k, w, FamilyOf(sys), cur);
    forall x | Satisfies(x, sys, k, w) ensures Means(PopSolve(c), x, w) {
      PopSolveMeans(c, x, w);
    }
  }

  lemma SkipSound(c: Store, k: nat, w: nat, sys: System, len: nat, f: nat, b: nat, todo: set<nat>)
    requires Sound(c, k, w, sys, len, b, todo) && f < |c.frames| && !c.frames[f].active
    ensures Sound(c, k, w, sys, len, b, todo - {f})
  {
    SkipKeeps(c, k, w, FamilyOf(sys), f, b, todo);
  }

  lemma VisitKeepSound(c: Store, k: nat, w: nat, sys: System, len: nat, f: nat, b: nat, todo: set<nat>)
    requires Sound(c, k, w, sys, len, b, todo) && Visitable(c, k, w, f, b, todo) && |c.frames[f].idx| > 2
    ensures c.frames[f].slot < |c.slots| && c.solved[b].value < |c.slots|
    ensures Sound(VisitKeep(c, f, b), k, w, sys, len, b, todo - {f}) && Done(VisitKeep(c, f, b)) == Done(c)
  {
    VisitFacts(c, k, w, f, b, todo);
    VisitKeepKeeps(c, k, w, FamilyOf(sys), f, b, todo);
    forall x | Satisfies(x, sys, k, w) ensures Means(VisitKeep(c, f, b), x, w) {
      VisitKeepMeans(c, k, w, f, b, todo, x);
    }
    XorZeroPadded(c.slots[c.frames[f].slot], c.slots[c.solved[b].value], len);
  }

  lemma VisitQueueSound(c: Store, k: nat, w: nat, sys: System, len: nat, f: nat, b: nat, todo: set<nat>, r: nat)
    requires Sound(c, k, w, sys, len, b, todo) && Visitable(c, k, w, f, b, todo) && c.frames[f].idx - {b} == {r}
    ensures c.frames[f].slot < |c.slots| && c.solved[b].value < |c.slots| && r < k && c.solved[r].None?
    ensures Sound(VisitQueue(c, f, b, r), k, w, sys, len, b, todo - {f}) && Done(VisitQueue(c, f, b, r)) == Done(c)
  {
    VisitFacts(c, k, w, f, b, todo);
    VisitQueueKeeps(c, k, w, FamilyOf(sys), f, b, todo, r);
    forall x | Satisfies(x, sys, k, w) ensures Means(VisitQueue(c, f, b, r), x, w) {
      VisitQueueMeans(c, k, w, f, b, todo, r, x);
    }
    XorZeroPadded(c.slots[c.frames[f].slot], c.slots[c.solved[b].value], len);
  }

  /** The work-list phase starts and ends with nothing left to visit, for whichever block came last. */
  lemma CurrentIrrelevant(c: Store, k: nat, w: nat, sys: System, len: nat, cur: nat, cur': nat)
    requires Sound(c, k, w, sys, len, cur, {})
    ensures Sound(c, k, w, sys, len, cur', {})
  {
    forall s | 0 <= s < |c.rows| ensures Reduced(c, s, cur', {}) {
      assert Reduced(c, s, cur, {});
    }
  }

  /* ---------- accepting an equation ---------- */

  lemma SatisfiesFewer(x: seq<Block>, sys: System, q: nat, eqn: Equation, k: nat, w: nat)
    requires q !in sys && Satisfies(x, sys[q := eqn], k, w)
    ensures Satisfies(x, sys, k, w) && Sum(x, eqn.idx, w) == eqn.rhs
  {
    forall p | p in sys ensures Sum(x, sys[p].idx, w) == sys[p].rhs {
      assert p in sys[q := eqn] && sys[q := eqn][p] == sys[p];
    }
    assert q in sys[q := eqn];
  }

  lemma FamilyAdd(sys: System, q: nat, eqn: Equation)
    requires q !in sys
    ensures FamilyOf(sys[q := eqn]) == FamilyOf(sys) + {eqn.idx}
  {
    forall e | e in FamilyOf(sys) + {eqn.idx} ensures e in FamilyOf(sys[q := eqn]) {
      if e == eqn.idx {
        assert q in sys[q := eqn] && sys[q := eqn][q].idx == e;
      } else {
        var p :| p in sys && sys[p].idx == e;
        assert p in sys[q := eqn] && sys[q := eqn][p].idx == e;
      }
    }
  }

  lemma AddRedundantSound(c: Store, k: nat, w: nat, sys: System, len: nat, cur: nat, q: nat, eqn: Equation)
    requires Sound(c, k, w, sys, len, cur, {}) && q !in sys && eqn.idx <= Done(c)
    ensures Sound(c, k, w, sys[q := eqn], len, cur, {})
  {
    FamilyAdd(sys, q, eqn);
    AddRedundantKeeps(c, k, w, FamilyOf(sys), cur, eqn.idx);
    forall x | Satisfies(x, sys[q := eqn], k, w) ensures Means(c, x, w) {
      SatisfiesFewer(x, sys, q, eqn, k, w);
    }
  }

  /** `v` is the right-hand side of `eqn` with the solved blocks in `known` eliminated. */
  ghost predicate Eliminated(v: Block, eqn: Equation, known: set<nat>, sys: System, k: nat, w: nat) {
    |v| == w && forall x :: Satisfies(x, sys, k, w) && Sum(x, eqn.idx, w) == eqn.rhs ==> v == Sum(x, eqn.idx - known, w)
  }

  lemma EliminateOne(
      v: Block, eqn: Equation, known: set<nat>, c: Store, sys: System, k: nat, w: nat, len: nat, cur: nat, b: nat)
    requires Sound(c, k, w, sys, len, cur, {}) && Eliminated(v, eqn, known, sys, k, w)
    requires b in eqn.idx && b !in known && b < k && c.solved[b].Some? && c.solved[b].value < |c.slots|
    requires ZeroPadded(v, len)
    ensures Eliminated(Xor(v, c.slots[c.solved[b].value]), eqn, known + {b}, sys, k, w)
    ensures ZeroPadded(Xor(v, c.slots[c.solved[b].value]), len)
  {
    var s := c.solved[b].value;
    assert c.rows[s].role == Holds(b);
    forall x | Satisfies(x, sys, k, w) && Sum(x, eqn.idx, w) == eqn.rhs
      ensures Xor(v, c.slots[s]) == Sum(x, eqn.idx - (known + {b}), w)
    {
      assert Means(c, x, w) && SlotMeans(c, s, x, w);
      SumRemove(x, eqn.idx - known, b, w);
      assert eqn.idx - known - {b} == eqn.idx - (known + {b});
    }
    XorZeroPadded(v, c.slots[s], len);
  }

  lemma AddSingleSound(c: Store, k: nat, w: nat, sys: System, len: nat, cur: nat, q: nat, eqn: Equation, v: Block, b: nat)
    requires Sound(c, k, w, sys, len, cur, {}) && q !in sys && eqn.idx <= Below(k) && eqn.idx - Done(c) == {b}
    requires Eliminated(v, eqn, eqn.idx * Done(c), sys, k, w) && ZeroPadded(v, len)
    ensures Sound(AddSingle(c, eqn.idx, v, b), k, w, sys[q := eqn], len, cur, {})
    ensures Done(AddSingle(c, eqn.idx, v, b)) == Done(c) && b < k
  {
    assert b in eqn.idx - Done(c);
    FamilyAdd(sys, q, eqn);
    AddSingleKeeps(c, k, w, FamilyOf(sys), cur, eqn.idx, v, b);
    forall x | Satisfies(x, sys[q := eqn], k, w) ensures Means(AddSingle(c, eqn.idx, v, b), x, w) {
      SatisfiesFewer(x, sys, q, eqn, k, w);
      assert eqn.idx - eqn.idx * Done(c) == {b};
      SumSingle(x, b, w);
      AddSingleMeans(c, x, w, eqn.idx, v, b);
    }
  }

  lemma AddPendingSound(
      c: Store, k: nat, w: nat, sys: System, len: nat, cur: nat, q: nat, eqn: Equation, v: Block, us: seq<nat>)
    requires Sound(c, k, w, sys, len, cur, {}) && q !in sys && eqn.idx <= Below(k)
    requires Distinct(us) && |us| >= 2 && Members(us) == eqn.idx - Done(c)
    requires Eliminated(v, eqn, eqn.idx * Done(c), sys, k, w) && ZeroPadded(v, len)
    ensures Sound(AddPending(c, eqn.idx, v, us), k, w, sys[q := eqn], len, cur, {})
    ensures Done(AddPending(c, eqn.idx, v, us)) == Done(c)
  {
    FamilyAdd(sys, q, eqn);
    AddPendingKeeps(c, k, w, FamilyOf(sys), cur, eqn.idx, v, us);
    forall x | Satisfies(x, sys[q := eqn], k, w) ensures Means(AddPending(c, eqn.idx, v, us), x, w) {
      SatisfiesFewer(x, sys, q, eqn, k, w);
      assert eqn.idx - eqn.idx * Done(c) == Members(us);
      AddPendingMeans(c, x, w, eqn.idx, v, us);
    }
  }

  /* ---------- facts the imperative decoder reads off the invariant ---------- */

  lemma SoundShape(c: Store, k: nat, w: nat, sys: System, len: nat, cur: nat, todo: set<nat>)
    requires Sound(c, k, w, sys, len, cur, todo)
    ensures Shape(c, k, w) && SolvedLinked(c) && QueueLinked(c)
    ensures |c.solved| == k && |c.byBlock| == k && |c.rows| == |c.slots| && |c.frames| <= |c.slots|
    ensures Done(c) <= Below(k) && |Done(c)| <= k && |Done(c)| <= |c.slots|
  {
    SolvedAtMostRows(c);
    SubsetSize(Done(c), Below(k));
  }

  /** Solving one more block. */
  lemma PopSolveGrows(c: Store, k: nat, w: nat, sys: System, len: nat, cur: nat)
    requires Sound(c, k, w, sys, len, cur, {}) && c.queue != []
    requires c.solved[Last(c).0].None?
    ensures |Done(PopSolve(c))| == |Done(c)| + 1 <= k
    ensures var waiting := c.byBlock[Last(c).0];
            Distinct(waiting) && forall f :: f in waiting ==> f < |c.frames|
    ensures PopSolve(c).solved[Last(c).0].Some? && |PopSolve(c).slots| == |c.slots| && |PopSolve(c).frames| == |c.frames|
  {
    PopSolveSound(c, k, w, sys, len, cur);
    var c' := PopSolve(c);
    assert Last(c).0 !in Done(c);
    SubsetSize(Done(c'), Below(k));
    assert Adjacent(c, Last(c).0);
  }

  lemma SoundVisitable(c: Store, k: nat, w: nat, sys: System, len: nat, f: nat, b: nat, todo: set<nat>)
    requires Sound(c, k, w, sys, len, b, todo) && f < |c.frames| && c.frames[f].active && f in todo
    requires b < k && c.solved[b].Some?
    ensures Visitable(c, k, w, f, b, todo)
    ensures c.frames[f].slot < |c.slots| == |c.rows| && c.solved[b].value < |c.slots| && c.frames[f].slot != c.solved[b].value
    ensures |c.slots[c.frames[f].slot]| == |c.slots[c.solved[b].value]| == w
    ensures |c.frames[f].idx - {b}| == |c.frames[f].idx| - 1 >= 1
  {
    VisitFacts(c, k, w, f, b, todo);
  }

  /** The decoded blocks; zeros stand for blocks that are not solved. */
  ghost function Values(c: Store, w: nat): (x: seq<Block>)
    ensures |x| == |c.solved|
  {
    seq(|c.solved|, b requires 0 <= b < |c.solved| =>
      if c.solved[b].Some? && c.solved[b].value < |c.slots| then c.slots[c.solved[b].value] else Zeros(w))
  }

  /** A solved block has the value it has in every source vector that satisfies the accepted equations. */
  lemma ValuesDetermined(c: Store, k: nat, w: nat, sys: System, len: nat, cur: nat, todo: set<nat>)
    requires Sound(c, k, w, sys, len, cur, todo)
    ensures IsSource(Values(c, w), k, w)
    ensures forall x, b :: Satisfies(x, sys, k, w) && b in Done(c) ==> Values(c, w)[b] == x[b]
  {
    forall x, b | Satisfies(x, sys, k, w) && b in Done(c) ensures Values(c, w)[b] == x[b] {
      assert Means(c, x, w) && SlotMeans(c, c.solved[b].value, x, w);
    }
  }
}
