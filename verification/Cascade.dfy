/** The steps of the decoder's cascade on values, and what each of them keeps. */
module Cascade {
  import opened Common
  import opened Words
  import opened Sets
  import opened Peeling
  import opened Equations

  function Last(c: Store): (nat, nat)
    requires c.queue != []
  {
    c.queue[|c.queue| - 1]
  }

  /* ---------- popping a value whose block is already solved ---------- */

  function PopSpent(c: Store): Store
    requires c.queue != [] && Last(c).1 < |c.rows|
  {
    var s := Last(c).1;
    c.(rows := c.rows[s := c.rows[s].(role := Spent)], queue := c.queue[..|c.queue| - 1])
  }

  lemma PopSpentKeeps(c: Store, k: nat, w: nat, fam: Family, cur: nat)
    requires Inv(c, k, w, fam, cur, {}) && c.queue != []
    requires c.solved[Last(c).0].Some?
    ensures Inv(PopSpent(c), k, w, fam, cur, {}) && Done(PopSpent(c)) == Done(c)
  {
    var c' := PopSpent(c);
    PopSpentLinks(c, k, w);
    assert Done(c') == Done(c);
    forall s | 0 <= s < |c'.rows| ensures Reduced(c', s, cur, {}) {
      assert Reduced(c, s, cur, {});
    }
    forall b | 0 <= b < |c'.byBlock| ensures Adjacent(c', b) {
      assert Adjacent(c, b);
    }
    RowsKeepEquations(c, c', fam);
  }

  lemma PopSpentLinks(c: Store, k: nat, w: nat)
    requires Shape(c, k, w) && SolvedLinked(c) && FramesLinked(c) && QueueLinked(c) && c.queue != []
    ensures var c' := PopSpent(c); Shape(c', k, w) && SolvedLinked(c') && FramesLinked(c') && QueueLinked(c')
  {
  }

  /** `Justified` only depends on the equations of the rows and on the solved blocks. */
  lemma RowsKeepEquations(c: Store, c': Store, fam: Family)
    requires Justified(c, fam) && Done(c) == Done(c') && |c.rows| == |c'.rows|
    requires forall s :: 0 <= s < |c.rows| ==> c'.rows[s].eqn == c.rows[s].eqn
    ensures Justified(c', fam)
  {
    forall e | e in fam ensures e <= Done(c') || exists s :: 0 <= s < |c'.rows| && c'.rows[s].eqn == e {
      if !(e <= Done(c)) {
        var s :| 0 <= s < |c.rows| && c.rows[s].eqn == e;
        assert c'.rows[s].eqn == e;
      }
    }
  }

  lemma PopSpentMeans(c: Store, x: seq<Block>, w: nat)
    requires |c.rows| == |c.slots| && IsSource(x, |x|, w) && c.queue != [] && Last(c).1 < |c.rows|
    requires Means(c, x, w)
    ensures Means(PopSpent(c), x, w)
  {
    forall s | 0 <= s < |c.rows| ensures SlotMeans(PopSpent(c), s, x, w) {
      assert SlotMeans(c, s, x, w);
    }
  }

  /* ---------- popping a value that solves its block ---------- */

  function PopSolve(c: Store): Store
    requires c.queue != [] && Last(c).0 < |c.solved| == |c.byBlock| && Last(c).1 < |c.rows|
  {
    var (b, s) := Last(c);
    c.(solved := c.solved[b := Some(s)],
       rows := c.rows[s := c.rows[s].(role := Holds(b))],
       byBlock := c.byBlock[b := []],
       queue := c.queue[..|c.queue| - 1])
  }

  lemma PopSolveLinks(c: Store, k: nat, w: nat)
    requires Shape(c, k, w) && SolvedLinked(c) && FramesLinked(c) && QueueLinked(c) && c.queue != []
    requires c.solved[Last(c).0].None?
    ensures var c' := PopSolve(c); Shape(c', k, w) && SolvedLinked(c') && FramesLinked(c') && QueueLinked(c')
  {
  }

  lemma PopSolveReduced(c: Store, k: nat, w: nat, cur: nat)
    requires Shape(c, k, w) && QueueLinked(c) && AllReduced(c, cur, {}) && AllAdjacent(c) && c.queue != []
    requires FramesLinked(c) && c.solved[Last(c).0].None?
    ensures var b := Last(c).0; AllReduced(PopSolve(c), b, Members(c.byBlock[b]))
    ensures Done(PopSolve(c)) == Done(c) + {Last(c).0}
  {
    var b := Last(c).0;
    var c', todo := PopSolve(c), Members(c.byBlock[b]);
    assert Done(c') == Done(c) + {b};
    assert Adjacent(c, b);
    forall s | 0 <= s < |c'.rows| ensures Reduced(c', s, b, todo) {
      assert Reduced(c, s, cur, {});
    }
  }

  /** The popped block is solved; the frames that wait for it are exactly the ones still to visit. */
  lemma PopSolveKeeps(c: Store, k: nat, w: nat, fam: Family, cur: nat)
    requires Inv(c, k, w, fam, cur, {}) && c.queue != [] && c.solved[Last(c).0].None?
    ensures var b := Last(c).0;
            Inv(PopSolve(c), k, w, fam, b, Members(c.byBlock[b])) && Done(PopSolve(c)) == Done(c) + {b}
  {
    PopSolveLinks(c, k, w);
    PopSolveReduced(c, k, w, cur);
    forall d | 0 <= d < |c.byBlock| ensures Adjacent(PopSolve(c), d) {
      assert Adjacent(c, d);
    }
    assert Reduced(c, Last(c).1, cur, {});
    PopSolveJustified(c, k, fam);
  }

  lemma PopSolveJustified(c: Store, k: nat, fam: Family)
    requires |c.solved| == |c.byBlock| == k && c.queue != [] && Last(c).1 < |c.rows| && Last(c).0 < k
    requires Justified(c, fam) && c.solved[Last(c).0].None?
    requires var (b, s) := Last(c); b in c.rows[s].eqn && c.rows[s].eqn - {b} <= Done(c)
    ensures Justified(PopSolve(c), fam)
  {
    var (b, s) := Last(c);
    var c' := PopSolve(c);
    assert Done(c') == Done(c) + {b};
    forall t | Closed(fam, t) ensures Done(c') <= t {
      assert !Reveals(c.rows[s].eqn, t, b);
    }
    forall e | e in fam ensures e <= Done(c') || exists s' :: 0 <= s' < |c'.rows| && c'.rows[s'].eqn == e {
      if !(e <= Done(c)) {
        var s' :| 0 <= s' < |c.rows| && c.rows[s'].eqn == e;
        assert c'.rows[s'].eqn == e;
      }
    }
  }

  lemma PopSolveMeans(c: Store, x: seq<Block>, w: nat)
    requires |c.rows| == |c.slots| && IsSource(x, |x|, w)
    requires c.queue != [] && Last(c).0 < |c.solved| == |c.byBlock| && Last(c).1 < |c.rows|
    requires c.rows[Last(c).1].role == Queued(Last(c).0)
    requires Means(c, x, w)
    ensures Means(PopSolve(c), x, w)
  {
    forall s | 0 <= s < |c.rows| ensures SlotMeans(PopSolve(c), s, x, w) {
      assert SlotMeans(c, s, x, w);
    }
  }

  /* ---------- removing the solved block from one waiting frame ---------- */

  /** The frame keeps waiting for at least two blocks. */
  function VisitKeep(c: Store, f: nat, b: nat): Store
    requires f < |c.frames| && c.frames[f].slot < |c.slots| && b < |c.solved| && c.solved[b].Some? && c.solved[b].value < |c.slots|
    requires |c.slots[c.frames[f].slot]| == |c.slots[c.solved[b].value]|
  {
    var s := c.frames[f].slot;
    c.(frames := c.frames[f := c.frames[f].(idx := c.frames[f].idx - {b})],
       slots := c.slots[s := Xor(c.slots[s], c.slots[c.solved[b].value])])
  }

  /** One block `r` is left: the frame retires and its slot joins the work list. */
  function VisitQueue(c: Store, f: nat, b: nat, r: nat): Store
    requires f < |c.frames| && c.frames[f].slot < |c.slots| == |c.rows| && b < |c.solved| && c.solved[b].Some?
    requires c.solved[b].value < |c.slots| && |c.slots[c.frames[f].slot]| == |c.slots[c.solved[b].value]|
  {
    var s := c.frames[f].slot;
    var c' := VisitKeep(c, f, b);
    c'.(frames := c'.frames[f := c'.frames[f].(active := false)],
        rows := c'.rows[s := c'.rows[s].(role := Queued(r))],
        queue := c'.queue + [(r, s)])
  }

  /** An active frame to visit: it waits for `b`, whose slot is another one. */
  ghost predicate Visitable(c: Store, k: nat, w: nat, f: nat, b: nat, todo: set<nat>) {
    && Shape(c, k, w) && SolvedLinked(c) && FramesLinked(c)
    && f < |c.frames| && c.frames[f].active && f in todo && b < k && c.solved[b].Some? && AllReduced(c, b, todo)
  }

  lemma VisitFacts(c: Store, k: nat, w: nat, f: nat, b: nat, todo: set<nat>)
    requires Visitable(c, k, w, f, b, todo)
    ensures c.frames[f].slot < |c.slots| && c.solved[b].value < |c.slots|
    ensures c.frames[f].slot != c.solved[b].value
    ensures b in c.frames[f].idx && |c.frames[f].idx - {b}| == |c.frames[f].idx| - 1 >= 1
    ensures (c.frames[f].idx - {b}) * Done(c) == {} && c.frames[f].idx <= Below(k)
  {
    assert Reduced(c, c.frames[f].slot, b, todo);
  }

  /** Both outcomes of a visit take `b` out of the frame's set and leave every other frame alone. */
  ghost predicate Visited(c: Store, c': Store, f: nat, b: nat) {
    && |c'.frames| == |c.frames| && f < |c.frames| && c'.frames[f].idx == c.frames[f].idx - {b}
    && (forall g :: 0 <= g < |c.frames| && g != f ==> c'.frames[g] == c.frames[g])
    && c'.solved == c.solved && c'.byBlock == c.byBlock && |c'.rows| == |c.rows|
    && (c'.frames[f].active ==> c.frames[f].active)
  }

  lemma VisitedAdjacent(c: Store, c': Store, f: nat, b: nat)
    requires Visited(c, c', f, b) && AllAdjacent(c) && b in Done(c)
    ensures Done(c') == Done(c) && AllAdjacent(c')
  {
    assert Done(c') == Done(c);
    forall d | 0 <= d < |c'.byBlock| ensures Adjacent(c', d) {
      assert Adjacent(c, d);
    }
  }

  lemma VisitKeepReduced(c: Store, k: nat, w: nat, f: nat, b: nat, todo: set<nat>)
    requires Visitable(c, k, w, f, b, todo) && |c.frames[f].idx| > 2
    ensures c.frames[f].slot < |c.slots| && c.solved[b].value < |c.slots|
    ensures AllReduced(VisitKeep(c, f, b), b, todo - {f})
  {
    VisitFacts(c, k, w, f, b, todo);
    var c' := VisitKeep(c, f, b);
    assert Done(c') == Done(c);
    forall s | 0 <= s < |c'.rows| ensures Reduced(c', s, b, todo - {f}) {
      assert Reduced(c, s, b, todo);
    }
  }

  lemma VisitKeepKeeps(c: Store, k: nat, w: nat, fam: Family, f: nat, b: nat, todo: set<nat>)
    requires Inv(c, k, w, fam, b, todo) && Visitable(c, k, w, f, b, todo) && |c.frames[f].idx| > 2
    ensures c.frames[f].slot < |c.slots| && c.solved[b].value < |c.slots|
    ensures Inv(VisitKeep(c, f, b), k, w, fam, b, todo - {f}) && Done(VisitKeep(c, f, b)) == Done(c)
  {
    VisitFacts(c, k, w, f, b, todo);
    VisitKeepReduced(c, k, w, f, b, todo);
    var c' := VisitKeep(c, f, b);
    VisitedAdjacent(c, c', f, b);
    RowsKeepEquations(c, c', fam);
  }

  lemma VisitQueueReduced(c: Store, k: nat, w: nat, f: nat, b: nat, todo: set<nat>, r: nat)
    requires Visitable(c, k, w, f, b, todo) && c.frames[f].idx - {b} == {r}
    ensures c.frames[f].slot < |c.slots| && c.solved[b].value < |c.slots| && r < k && c.solved[r].None?
    ensures AllReduced(VisitQueue(c, f, b, r), b, todo - {f})
  {
    VisitFacts(c, k, w, f, b, todo);
    assert r in c.frames[f].idx - {b};
    assert r !in Done(c);
    var c' := VisitQueue(c, f, b, r);
    assert Done(c') == Done(c);
    forall s | 0 <= s < |c'.rows| ensures Reduced(c', s, b, todo - {f}) {
      assert Reduced(c, s, b, todo);
    }
  }

  lemma VisitQueueKeeps(c: Store, k: nat, w: nat, fam: Family, f: nat, b: nat, todo: set<nat>, r: nat)
    requires Inv(c, k, w, fam, b, todo) && Visitable(c, k, w, f, b, todo) && c.frames[f].idx - {b} == {r}
    ensures c.frames[f].slot < |c.slots| && c.solved[b].value < |c.slots| && r < k && c.solved[r].None?
    ensures Inv(VisitQueue(c, f, b, r), k, w, fam, b, todo - {f}) && Done(VisitQueue(c, f, b, r)) == Done(c)
  {
    VisitFacts(c, k, w, f, b, todo);
    VisitQueueReduced(c, k, w, f, b, todo, r);
    VisitQueueLinks(c, k, w, f, b, r);
    var c' := VisitQueue(c, f, b, r);
    VisitedAdjacent(c, c', f, b);
    RowsKeepEquations(c, c', fam);
  }

  lemma VisitQueueLinks(c: Store, k: nat, w: nat, f: nat, b: nat, r: nat)
    requires Shape(c, k, w) && SolvedLinked(c) && FramesLinked(c) && QueueLinked(c)
    requires f < |c.frames| && c.frames[f].active && b < k && c.solved[b].Some? && r < k
    ensures c.frames[f].slot < |c.slots| && c.solved[b].value < |c.slots|
    ensures var c' := VisitQueue(c, f, b, r); Shape(c', k, w) && SolvedLinked(c') && FramesLinked(c') && QueueLinked(c')
  {
  }

  /** Retired frames need no visit. */
  lemma SkipKeeps(c: Store, k: nat, w: nat, fam: Family, f: nat, b: nat, todo: set<nat>)
    requires Inv(c, k, w, fam, b, todo) && f < |c.frames| && !c.frames[f].active
    ensures Inv(c, k, w, fam, b, todo - {f})
  {
    forall s | 0 <= s < |c.rows| ensures Reduced(c, s, b, todo - {f}) {
      assert Reduced(c, s, b, todo);
    }
  }

  lemma VisitKeepMeans(c: Store, k: nat, w: nat, f: nat, b: nat, todo: set<nat>, x: seq<Block>)
    requires Visitable(c, k, w, f, b, todo) && IsSource(x, k, w) && Means(c, x, w)
    ensures c.frames[f].slot < |c.slots| && c.solved[b].value < |c.slots|
    ensures Means(VisitKeep(c, f, b), x, w)
  {
    VisitFacts(c, k, w, f, b, todo);
    var c', at := VisitKeep(c, f, b), c.frames[f].slot;
    assert SlotMeans(c, at, x, w) && SlotMeans(c, c.solved[b].value, x, w);
    SumRemove(x, c.frames[f].idx, b, w);
    forall s | 0 <= s < |c'.rows| ensures SlotMeans(c', s, x, w) {
      assert SlotMeans(c, s, x, w);
    }
  }

  lemma VisitQueueMeans(c: Store, k: nat, w: nat, f: nat, b: nat, todo: set<nat>, r: nat, x: seq<Block>)
    requires Visitable(c, k, w, f, b, todo) && c.frames[f].idx - {b} == {r} && IsSource(x, k, w) && Means(c, x, w)
    ensures c.frames[f].slot < |c.slots| && c.solved[b].value < |c.slots|
    ensures Means(VisitQueue(c, f, b, r), x, w)
  {
    VisitFacts(c, k, w, f, b, todo);
    VisitKeepMeans(c, k, w, f, b, todo, x);
    var kept, c' := VisitKeep(c, f, b), VisitQueue(c, f, b, r);
    assert r in c.frames[f].idx;
    SumSingle(x, r, w);
    forall s | 0 <= s < |c'.rows| ensures SlotMeans(c', s, x, w) {
      assert SlotMeans(kept, s, x, w);
    }
  }

  /* ---------- accepting an equation ---------- */

  /** An equation with the single unsolved block `b`: its value joins the work list. */
  function AddSingle(c: Store, e: set<nat>, v: Block, b: nat): Store {
    c.(rows := c.rows + [Row(e, Queued(b))], slots := c.slots + [v], queue := c.queue + [(b, |c.rows|)])
  }

  /** An equation with the unsolved blocks `us`, at least two: a new frame waits for all of them. */
  function AddPending(c: Store, e: set<nat>, v: Block, us: seq<nat>): Store {
    var f := |c.frames|;
    c.(rows := c.rows + [Row(e, Pending(f))], slots := c.slots + [v],
       frames := c.frames + [Frame(Members(us), |c.rows|, true)],
       byBlock := Enlist(c.byBlock, us, f))
  }

  /** `f` appended to the lists of the blocks in `us`. */
  function Enlist(byBlock: seq<seq<nat>>, us: seq<nat>, f: nat): (r: seq<seq<nat>>)
    ensures |r| == |byBlock|
  {
    seq(|byBlock|, b requires 0 <= b < |byBlock| => if b in us then byBlock[b] + [f] else byBlock[b])
  }

  lemma JustifiedGrows(c: Store, c': Store, fam: Family, e: set<nat>)
    requires Justified(c, fam) && Done(c') == Done(c) && |c.rows| <= |c'.rows| <= |c.rows| + 1
    requires forall s :: 0 <= s < |c.rows| ==> c'.rows[s].eqn == c.rows[s].eqn
    requires |c'.rows| > |c.rows| ==> c'.rows[|c.rows|].eqn == e
    requires |c'.rows| == |c.rows| ==> e <= Done(c)
    ensures Justified(c', fam + {e})
  {
    forall t | Closed(fam + {e}, t) ensures Done(c') <= t {
      assert Closed(fam, t);
    }
    forall d | d in fam + {e} ensures d <= Done(c') || exists s :: 0 <= s < |c'.rows| && c'.rows[s].eqn == d {
      if d in fam && !(d <= Done(c)) {
        var s :| 0 <= s < |c.rows| && c.rows[s].eqn == d;
        assert c'.rows[s].eqn == d;
      } else if d == e && |c'.rows| > |c.rows| {
        assert c'.rows[|c.rows|].eqn == d;
      }
    }
  }

  lemma AddRedundantKeeps(c: Store, k: nat, w: nat, fam: Family, cur: nat, e: set<nat>)
    requires Inv(c, k, w, fam, cur, {}) && e <= Done(c)
    ensures Inv(c, k, w, fam + {e}, cur, {})
  {
    JustifiedGrows(c, c, fam, e);
  }

  lemma AddSingleKeeps(c: Store, k: nat, w: nat, fam: Family, cur: nat, e: set<nat>, v: Block, b: nat)
    requires Inv(c, k, w, fam, cur, {}) && e <= Below(k) && |v| == w && e - Done(c) == {b}
    ensures Inv(AddSingle(c, e, v, b), k, w, fam + {e}, cur, {}) && Done(AddSingle(c, e, v, b)) == Done(c)
  {
    var c' := AddSingle(c, e, v, b);
    assert Done(c') == Done(c);
    assert b in e - Done(c);
    AddSingleLinks(c, k, w, e, v, b);
    forall s | 0 <= s < |c'.rows| ensures Reduced(c', s, cur, {}) {
      assert s < |c.rows| ==> Reduced(c, s, cur, {});
    }
    forall d | 0 <= d < |c'.byBlock| ensures Adjacent(c', d) {
      assert Adjacent(c, d);
    }
    JustifiedGrows(c, c', fam, e);
  }

  lemma AddSingleLinks(c: Store, k: nat, w: nat, e: set<nat>, v: Block, b: nat)
    requires Shape(c, k, w) && SolvedLinked(c) && FramesLinked(c) && QueueLinked(c)
    requires e <= Below(k) && |v| == w && b < k
    ensures var c' := AddSingle(c, e, v, b); Shape(c', k, w) && SolvedLinked(c') && FramesLinked(c') && QueueLinked(c')
  {
  }

  lemma AddSingleMeans(c: Store, x: seq<Block>, w: nat, e: set<nat>, v: Block, b: nat)
    requires |c.rows| == |c.slots| && IsSource(x, |x|, w) && Means(c, x, w) && b < |x| && v == x[b]
    ensures Means(AddSingle(c, e, v, b), x, w)
  {
    var c' := AddSingle(c, e, v, b);
    forall s | 0 <= s < |c'.rows| ensures SlotMeans(c', s, x, w) {
      assert s < |c.rows| ==> SlotMeans(c, s, x, w);
    }
  }

  lemma AddPendingKeeps(c: Store, k: nat, w: nat, fam: Family, cur: nat, e: set<nat>, v: Block, us: seq<nat>)
    requires Inv(c, k, w, fam, cur, {}) && e <= Below(k) && |v| == w
    requires Distinct(us) && |us| >= 2 && Members(us) == e - Done(c)
    ensures Inv(AddPending(c, e, v, us), k, w, fam + {e}, cur, {}) && Done(AddPending(c, e, v, us)) == Done(c)
  {
    var c' := AddPending(c, e, v, us);
    assert Done(c') == Done(c);
    AddPendingLinks(c, k, w, e, v, us);
    AddPendingReduced(c, cur, e, v, us);
    AddPendingAdjacent(c, e, v, us);
    JustifiedGrows(c, c', fam, e);
  }

  lemma AddPendingLinks(c: Store, k: nat, w: nat, e: set<nat>, v: Block, us: seq<nat>)
    requires Shape(c, k, w) && SolvedLinked(c) && FramesLinked(c) && QueueLinked(c)
    requires e <= Below(k) && |v| == w
    ensures var c' := AddPending(c, e, v, us); Shape(c', k, w) && SolvedLinked(c') && FramesLinked(c') && QueueLinked(c')
  {
  }

  lemma AddPendingReduced(c: Store, cur: nat, e: set<nat>, v: Block, us: seq<nat>)
    requires AllReduced(c, cur, {}) && Distinct(us) && |us| >= 2 && Members(us) == e - Done(c)
    ensures AllReduced(AddPending(c, e, v, us), cur, {})
  {
    var c' := AddPending(c, e, v, us);
    assert Done(c') == Done(c);
    MembersSize(us);
    forall s | 0 <= s < |c'.rows| ensures Reduced(c', s, cur, {}) {
      assert s < |c.rows| ==> Reduced(c, s, cur, {});
    }
  }

  lemma AddPendingAdjacent(c: Store, e: set<nat>, v: Block, us: seq<nat>)
    requires AllAdjacent(c) && Members(us) == e - Done(c)
    ensures AllAdjacent(AddPending(c, e, v, us))
  {
    var c' := AddPending(c, e, v, us);
    assert Done(c') == Done(c);
    forall d | 0 <= d < |c'.byBlock| ensures Adjacent(c', d) {
      assert Adjacent(c, d);
      assert d in us <==> d in Members(us);
      DistinctAppend(c.byBlock[d], |c.frames|);
    }
  }

  lemma AddPendingMeans(c: Store, x: seq<Block>, w: nat, e: set<nat>, v: Block, us: seq<nat>)
    requires |c.rows| == |c.slots| && IsSource(x, |x|, w) && Means(c, x, w) && v == Sum(x, Members(us), w)
    ensures Means(AddPending(c, e, v, us), x, w)
  {
    var c' := AddPending(c, e, v, us);
    forall s | 0 <= s < |c'.rows| ensures SlotMeans(c', s, x, w) {
      assert s < |c.rows| ==> SlotMeans(c, s, x, w);
    }
  }

  /* ---------- counting ---------- */

  /** Entries in all adjacency lists together. */
  function Total(lists: seq<seq<nat>>): nat {
    if lists == [] then 0 else Total(lists[..|lists| - 1]) + |lists[|lists| - 1]|
  }

  lemma {:induction false} TotalClear(lists: seq<seq<nat>>, b: nat)
    requires b < |lists|
    ensures Total(lists[b := []]) <= Total(lists)
  {
    var n := |lists| - 1;
    if b < n {
      TotalClear(lists[..n], b);
      assert lists[b := []][..n] == lists[..n][b := []];
    } else {
      assert lists[b := []][..n] == lists[..n];
    }
  }

  lemma {:induction false} TotalAppend(lists: seq<seq<nat>>, b: nat, f: nat)
    requires b < |lists|
    ensures Total(lists[b := lists[b] + [f]]) == Total(lists) + 1
  {
    var n := |lists| - 1;
    var appended := lists[b := lists[b] + [f]];
    if b < n {
      TotalAppend(lists[..n], b, f);
      assert appended[..n] == lists[..n][b := lists[..n][b] + [f]];
    } else {
      assert appended[..n] == lists[..n];
    }
  }

  /** Each solved block occupies a slot of its own. */
  lemma SolvedAtMostRows(c: Store)
    requires SolvedLinked(c)
    ensures |Done(c)| <= |c.rows|
  {
    var slotOf := map b | b in Done(c) :: c.solved[b].value;
    forall b, d | b in slotOf && d in slotOf && b != d ensures slotOf[b] != slotOf[d] {
      assert c.rows[c.solved[b].value].role == Holds(b) && c.rows[c.solved[d].value].role == Holds(d);
    }
    InjectionSize(slotOf, |c.rows|);
    assert slotOf.Keys == Done(c);
  }
}
