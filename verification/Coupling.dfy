/** How the decoder's concrete fields represent the equation store, and how each
    step of the cascade acts on both. */
module Coupling {
  import opened Common
  import opened Words
  import opened Sets
  import opened Equations
  import opened Cascade
  import opened Soundness
  import opened BlockSets
  import opened Arena
  import Modular

  datatype PendingFrame = PendingFrame(idx: BlockSet, off: nat, active: bool)

  /** The concrete fields, as one value. */
  datatype Fields = Fields(solved: seq<Option<nat>>, frames: seq<PendingFrame>, byBlock: seq<seq<nat>>, arena: seq<bv32>)

  ghost function Offset(s: Option<nat>, w: nat): Option<nat> {
    match s
    case None => None
    case Some(i) => Some(i * w)
  }

  ghost predicate FrameCoupled(p: PendingFrame, f: Frame, k: nat, w: nat) {
    && p.idx.Valid() && p.idx.Elems() == f.idx && p.off == f.slot * w && p.active == f.active
    && forall b :: 0 <= b < k ==> p.idx.Covers(b)
  }

  /** Offsets are slot numbers times the slot length; sets are represented; the arena is the slots in a row. */
  ghost predicate Coupled(v: Fields, queue: seq<(nat, nat)>, c: Store, k: nat, w: nat) {
    && |v.solved| == |c.solved| == k
    && (forall b :: 0 <= b < k ==> v.solved[b] == Offset(c.solved[b], w))
    && |v.frames| == |c.frames|
    && (forall f :: 0 <= f < |v.frames| ==> FrameCoupled(v.frames[f], c.frames[f], k, w))
    && v.byBlock == c.byBlock
    && Chunked(v.arena, c.slots, w)
    && |queue| == |c.queue|
    && (forall j :: 0 <= j < |queue| ==> queue[j] == (c.queue[j].0, c.queue[j].1 * w))
  }

  lemma EmptyCoupled(v: Fields, c: Store, k: nat, w: nat)
    requires c == Store(seq(k, _ => None), [], seq(k, _ => []), [], [], [])
    requires |v.solved| == |v.byBlock| == k && v.frames == [] && v.arena == []
    requires forall b :: 0 <= b < k ==> v.solved[b] == None && v.byBlock[b] == []
    ensures Coupled(v, [], c, k, w)
  {
  }

  /** What the top of the work list says. */
  lemma TopFacts(v: Fields, queue: seq<(nat, nat)>, c: Store, k: nat, w: nat)
    requires Coupled(v, queue, c, k, w) && QueueLinked(c) && Shape(c, k, w) && queue != []
    ensures c.queue != [] && queue[|queue| - 1] == (Last(c).0, Last(c).1 * w)
    ensures Last(c).0 < k && |v.solved| == |v.byBlock| == |c.solved| == |c.byBlock| == k && Last(c).1 < |c.rows|
    ensures v.solved[Last(c).0].Some? <==> c.solved[Last(c).0].Some?
    ensures v.byBlock == c.byBlock
  {
  }

  lemma PopSpentCoupled(v: Fields, queue: seq<(nat, nat)>, c: Store, k: nat, w: nat)
    requires Coupled(v, queue, c, k, w) && queue != [] && Last(c).1 < |c.rows|
    ensures Coupled(v, queue[..|queue| - 1], PopSpent(c), k, w)
  {
  }

  lemma PopSolveCoupled(v: Fields, queue: seq<(nat, nat)>, c: Store, k: nat, w: nat)
    requires Coupled(v, queue, c, k, w) && queue != [] && Last(c).0 < k && |c.byBlock| == k && Last(c).1 < |c.rows|
    ensures var (b, off) := queue[|queue| - 1];
            && b == Last(c).0
            && Coupled(v.(solved := v.solved[b := Some(off)], byBlock := v.byBlock[b := []]),
                       queue[..|queue| - 1], PopSolve(c), k, w)
  {
  }

  /** What the fields say about one active frame and a solved block. */
  lemma VisitCoupledFacts(v: Fields, queue: seq<(nat, nat)>, c: Store, k: nat, w: nat, f: nat, b: nat)
    requires Coupled(v, queue, c, k, w) && f < |v.frames| && b < k && c.solved[b].Some?
    ensures |v.solved| == k && |v.frames| == |c.frames| && v.frames[f].active == c.frames[f].active
    ensures v.frames[f].off == c.frames[f].slot * w && v.solved[b] == Some(c.solved[b].value * w)
    ensures v.frames[f].idx.Valid() && v.frames[f].idx.Elems() == c.frames[f].idx && v.frames[f].idx.Covers(b)
    ensures Chunked(v.arena, c.slots, w)
  {
  }

  /** The fields after the XOR and the removal. */
  function Removed(v: Fields, f: nat, rest: BlockSet, arena: seq<bv32>, active: bool): Fields
    requires f < |v.frames|
  {
    v.(frames := v.frames[f := PendingFrame(rest, v.frames[f].off, active)], arena := arena)
  }

  lemma VisitKeepCoupled(
      v: Fields, queue: seq<(nat, nat)>, c: Store, k: nat, w: nat, f: nat, b: nat, rest: BlockSet, arena: seq<bv32>)
    requires Coupled(v, queue, c, k, w) && f < |v.frames| && b < k && c.solved[b].Some?
    requires c.frames[f].slot < |c.slots| && c.solved[b].value < |c.slots| && c.frames[f].active
    requires |c.slots[c.frames[f].slot]| == |c.slots[c.solved[b].value]|
    requires rest.Valid() && rest.Elems() == c.frames[f].idx - {b}
    requires forall d :: v.frames[f].idx.Covers(d) ==> rest.Covers(d)
    requires Chunked(arena, VisitKeep(c, f, b).slots, w)
    ensures Coupled(Removed(v, f, rest, arena, true), queue, VisitKeep(c, f, b), k, w)
  {
  }

  lemma VisitQueueCoupled(
      v: Fields, queue: seq<(nat, nat)>, c: Store, k: nat, w: nat, f: nat, b: nat, r: nat, rest: BlockSet, arena: seq<bv32>)
    requires Coupled(v, queue, c, k, w) && f < |v.frames| && b < k && c.solved[b].Some?
    requires c.frames[f].slot < |c.slots| == |c.rows| && c.solved[b].value < |c.slots| && c.frames[f].active
    requires |c.slots[c.frames[f].slot]| == |c.slots[c.solved[b].value]|
    requires rest.Valid() && rest.Elems() == c.frames[f].idx - {b}
    requires forall d :: v.frames[f].idx.Covers(d) ==> rest.Covers(d)
    requires Chunked(arena, VisitKeep(c, f, b).slots, w)
    ensures Coupled(Removed(v, f, rest, arena, false), queue + [(r, v.frames[f].off)], VisitQueue(c, f, b, r), k, w)
  {
  }

  /* ---------- accepting an equation ---------- */

  lemma AddSingleCoupled(v: Fields, c: Store, k: nat, w: nat, e: set<nat>, words: Block, b: nat, arena: seq<bv32>)
    requires Coupled(v, [], c, k, w) && |c.slots| == |c.rows| && Chunked(arena, c.slots + [words], w)
    ensures Coupled(v.(arena := arena), [(b, |c.slots| * w)], AddSingle(c, e, words, b), k, w)
  {
  }

  lemma AddPendingCoupled(
      v: Fields, c: Store, k: nat, w: nat, e: set<nat>, words: Block, us: seq<nat>, arena: seq<bv32>,
      idx: BlockSet, byBlock: seq<seq<nat>>)
    requires Coupled(v, [], c, k, w) && |c.slots| == |c.rows| && Chunked(arena, c.slots + [words], w)
    requires idx.Valid() && idx.Elems() == Members(us) && forall b :: 0 <= b < k ==> idx.Covers(b)
    requires byBlock == Enlist(c.byBlock, us, |c.frames|)
    ensures Coupled(Fields(v.solved, v.frames + [PendingFrame(idx, |c.slots| * w, true)], byBlock, arena),
                    [], AddPending(c, e, words, us), k, w)
  {
  }

  /* ---------- both invariants together ---------- */

  /** Fields, work list and store agree, and the store is sound. */
  ghost predicate Running(
      v: Fields, queue: seq<(nat, nat)>, c: Store, k: nat, w: nat, sys: System, len: nat, cur: nat, todo: set<nat>) {
    Coupled(v, queue, c, k, w) && Sound(c, k, w, sys, len, cur, todo)
  }

  lemma EmptyRunning(v: Fields, k: nat, w: nat, len: nat)
    requires |v.solved| == |v.byBlock| == k && v.frames == [] && v.arena == []
    requires forall b :: 0 <= b < k ==> v.solved[b] == None && v.byBlock[b] == []
    ensures Running(v, [], EmptyStore(k), k, w, map[], len, 0, {})
    ensures |Done(EmptyStore(k))| == 0 && Total(v.byBlock) == 0 && EmptyStore(k).slots == []
  {
    EmptySound(k, w, len);
    assert v.byBlock == EmptyStore(k).byBlock;
    EmptyCoupled(v, EmptyStore(k), k, w);
  }

  lemma RunningFacts(
      v: Fields, queue: seq<(nat, nat)>, c: Store, k: nat, w: nat, sys: System, len: nat, cur: nat, todo: set<nat>)
    requires Running(v, queue, c, k, w, sys, len, cur, todo)
    ensures |v.solved| == |v.byBlock| == |c.solved| == |c.byBlock| == k && |c.rows| == |c.slots|
    ensures |Done(c)| <= k && |Done(c)| <= |c.slots| && |v.frames| == |c.frames| <= |c.slots|
    ensures |v.arena| == |c.slots| * w
    ensures forall b :: 0 <= b < k ==> (b in Done(c) <==> v.solved[b].Some?)
    ensures Done(c) <= Below(k)
  {
    SoundShape(c, k, w, sys, len, cur, todo);
  }

  /** What `assemble` reads: the slot of a solved block holds its value. */
  lemma SolvedSlot(v: Fields, c: Store, k: nat, w: nat, sys: System, len: nat, b: nat)
    requires Running(v, [], c, k, w, sys, len, 0, {}) && b < k && |v.solved| == k && v.solved[b].Some?
    ensures v.solved[b].value + w <= |v.arena| && |Values(c, w)| == k
    ensures v.arena[v.solved[b].value..v.solved[b].value + w] == Values(c, w)[b]
  {
    SoundShape(c, k, w, sys, len, 0, {});
    assert c.solved[b].Some? && c.rows[c.solved[b].value].role == Holds(b);
    assert HoldsAt(v.arena, c.solved[b].value * w, c.slots[c.solved[b].value]);
  }

  /** Two ranges of `w` words inside the arena that do not overlap. */
  predicate Apart(a: nat, b: nat, w: nat, len: nat) {
    a + w <= len && b + w <= len && (a + w <= b || b + w <= a)
  }

  /** The slot of a waiting frame. */
  lemma FrameSlot(v: Fields, c: Store, k: nat, w: nat, sys: System, len: nat, f: nat)
    requires Running(v, [], c, k, w, sys, len, 0, {}) && f < |v.frames| && v.frames[f].active
    ensures f < |c.frames| && c.frames[f].slot < |c.slots| == |c.rows| && v.frames[f].off == c.frames[f].slot * w
    ensures c.rows[c.frames[f].slot].role == Pending(f) && |v.arena| == |c.slots| * w
  {
    assert FrameCoupled(v.frames[f], c.frames[f], k, w);
  }

  /** The slot of a solved block. */
  lemma BlockSlot(v: Fields, c: Store, k: nat, w: nat, sys: System, len: nat, b: nat)
    requires Running(v, [], c, k, w, sys, len, 0, {}) && b < |v.solved| && v.solved[b].Some?
    ensures b < |c.solved| && c.solved[b].Some? && c.solved[b].value < |c.slots| == |c.rows|
    ensures v.solved[b].value == c.solved[b].value * w
    ensures c.rows[c.solved[b].value].role == Holds(b) && |v.arena| == |c.slots| * w
  {
    assert v.solved[b] == Offset(c.solved[b], w);
  }

  lemma Multiple(s: nat, w: nat)
    requires w > 0
    ensures s * w % w == 0
  {
    Modular.ModAddMultiple(0, s, w);
  }

  /** When every block is solved, only one source vector satisfies the accepted equations: the decoded one. */
  lemma OnlyOneSource(v: Fields, c: Store, k: nat, w: nat, sys: System, len: nat)
    requires Running(v, [], c, k, w, sys, len, 0, {})
    ensures IsSource(Values(c, w), k, w)
    ensures Done(c) == Below(k) ==> forall x :: Satisfies(x, sys, k, w) ==> Values(c, w) == x
  {
    hide Done, Coupled, Inv;
    ValuesDetermined(c, k, w, sys, len, 0, {});
  }

  /** The top of the work list names a block. */
  lemma TopIsBlock(v: Fields, queue: seq<(nat, nat)>, c: Store, k: nat, w: nat, sys: System, len: nat, cur: nat)
    requires Running(v, queue, c, k, w, sys, len, cur, {}) && queue != []
    ensures queue[|queue| - 1].0 < k == |v.solved| == |v.byBlock|
    ensures c.queue != [] && Last(c).1 < |c.rows| && Last(c).0 < |c.solved| == |c.byBlock|
  {
    SoundShape(c, k, w, sys, len, cur, {});
    TopFacts(v, queue, c, k, w);
  }

  lemma DropSpent(v: Fields, queue: seq<(nat, nat)>, c: Store, k: nat, w: nat, sys: System, len: nat, cur: nat)
    requires Running(v, queue, c, k, w, sys, len, cur, {}) && queue != []
    requires queue[|queue| - 1].0 < |v.solved| && v.solved[queue[|queue| - 1].0].Some?
    ensures c.queue != [] && Last(c).1 < |c.rows|
    ensures Running(v, queue[..|queue| - 1], PopSpent(c), k, w, sys, len, cur, {})
    ensures Done(PopSpent(c)) == Done(c) && |PopSpent(c).slots| == |c.slots|
  {
    SoundShape(c, k, w, sys, len, cur, {});
    TopFacts(v, queue, c, k, w);
    PopSpentSound(c, k, w, sys, len, cur);
    PopSpentCoupled(v, queue, c, k, w);
  }

  /** The fields after solving the block on top of the work list. */
  function Settled(v: Fields, queue: seq<(nat, nat)>): Fields
    requires queue != [] && queue[|queue| - 1].0 < |v.solved| == |v.byBlock|
  {
    var (b, off) := queue[|queue| - 1];
    v.(solved := v.solved[b := Some(off)], byBlock := v.byBlock[b := []])
  }

  lemma Settle(v: Fields, queue: seq<(nat, nat)>, c: Store, k: nat, w: nat, sys: System, len: nat, cur: nat)
    requires Running(v, queue, c, k, w, sys, len, cur, {}) && queue != []
    requires queue[|queue| - 1].0 < |v.solved| == |v.byBlock| && v.solved[queue[|queue| - 1].0].None?
    ensures c.queue != [] && Last(c).0 < |c.solved| == |c.byBlock| && Last(c).1 < |c.rows|
    ensures var b := queue[|queue| - 1].0;
            && b < k && PopSolve(c).solved == c.solved[b := Some(Last(c).1)]
            && Running(Settled(v, queue), queue[..|queue| - 1], PopSolve(c), k, w, sys, len, b, Members(v.byBlock[b]))
            && Distinct(v.byBlock[b]) && forall f :: f in v.byBlock[b] ==> f < |v.frames|
    ensures |Done(PopSolve(c))| == |Done(c)| + 1 <= k && |PopSolve(c).slots| == |c.slots|
    ensures queue[|queue| - 1].0 in Done(PopSolve(c))
  {
    SoundShape(c, k, w, sys, len, cur, {});
    TopFacts(v, queue, c, k, w);
    PopSolveSound(c, k, w, sys, len, cur);
    PopSolveGrows(c, k, w, sys, len, cur);
    PopSolveCoupled(v, queue, c, k, w);
  }

  lemma Skip(v: Fields, queue: seq<(nat, nat)>, c: Store, k: nat, w: nat, sys: System, len: nat, f: nat, b: nat, todo: set<nat>)
    requires Running(v, queue, c, k, w, sys, len, b, todo) && f < |v.frames| && !v.frames[f].active
    ensures Running(v, queue, c, k, w, sys, len, b, todo - {f})
  {
    SkipSound(c, k, w, sys, len, f, b, todo);
  }

  /** An active frame that waits for `b`: its slot and the slot of `b` are apart, and at least one other
      block remains, so the length-0 case of the source cannot arise. */
  lemma VisitReady(
      v: Fields, queue: seq<(nat, nat)>, c: Store, k: nat, w: nat, sys: System, len: nat, f: nat, b: nat, todo: set<nat>)
    requires Running(v, queue, c, k, w, sys, len, b, todo) && f < |v.frames| && v.frames[f].active && f in todo
    requires b < k && b in Done(c)
    ensures |v.solved| == |c.solved| == k && v.solved[b].Some? && c.solved[b].Some? && |v.frames| == |c.frames|
    ensures c.frames[f].slot < |c.slots| == |c.rows| && c.solved[b].value < |c.slots|
    ensures |c.slots[c.frames[f].slot]| == |c.slots[c.solved[b].value]| == w
    ensures var a, s := v.frames[f].off, v.solved[b].value;
            && a + w <= |v.arena| && s + w <= |v.arena| && (a + w <= s || s + w <= a)
            && Chunked(XoredAt(v.arena, a, s, w), VisitKeep(c, f, b).slots, w)
    ensures v.frames[f].idx.Valid() && v.frames[f].idx.Covers(b) && |v.frames[f].idx.Elems() - {b}| >= 1
  {
    VisitCoupledFacts(v, queue, c, k, w, f, b);
    SoundVisitable(c, k, w, sys, len, f, b, todo);
    XoredAtChunks(v.arena, c.slots, w, c.frames[f].slot, c.solved[b].value);
  }

  lemma Keep(
      v: Fields, queue: seq<(nat, nat)>, c: Store, k: nat, w: nat, sys: System, len: nat, f: nat, b: nat, todo: set<nat>,
      rest: BlockSet, arena: seq<bv32>)
    requires Running(v, queue, c, k, w, sys, len, b, todo) && f < |v.frames| && v.frames[f].active && f in todo
    requires b < k && b in Done(c) && c.solved[b].Some? && |v.frames| == |c.frames|
    requires c.frames[f].slot < |c.slots| == |c.rows| && c.solved[b].value < |c.slots|
    requires |c.slots[c.frames[f].slot]| == |c.slots[c.solved[b].value]| == w
    requires Chunked(arena, VisitKeep(c, f, b).slots, w)
    requires rest.Valid() && rest.Elems() == v.frames[f].idx.Elems() - {b} && |rest.Elems()| > 1
    requires forall d :: v.frames[f].idx.Covers(d) ==> rest.Covers(d)
    ensures Running(Removed(v, f, rest, arena, true), queue, VisitKeep(c, f, b), k, w, sys, len, b, todo - {f})
    ensures Done(VisitKeep(c, f, b)) == Done(c) && |VisitKeep(c, f, b).slots| == |c.slots|
  {
    VisitCoupledFacts(v, queue, c, k, w, f, b);
    SoundVisitable(c, k, w, sys, len, f, b, todo);
    VisitKeepSound(c, k, w, sys, len, f, b, todo);
    VisitKeepCoupled(v, queue, c, k, w, f, b, rest, arena);
  }

  lemma Retire(
      v: Fields, queue: seq<(nat, nat)>, c: Store, k: nat, w: nat, sys: System, len: nat, f: nat, b: nat, todo: set<nat>,
      rest: BlockSet, arena: seq<bv32>, r: nat)
    requires Running(v, queue, c, k, w, sys, len, b, todo) && f < |v.frames| && v.frames[f].active && f in todo
    requires b < k && b in Done(c) && c.solved[b].Some? && |v.frames| == |c.frames|
    requires c.frames[f].slot < |c.slots| == |c.rows| && c.solved[b].value < |c.slots|
    requires |c.slots[c.frames[f].slot]| == |c.slots[c.solved[b].value]| == w
    requires Chunked(arena, VisitKeep(c, f, b).slots, w)
    requires rest.Valid() && rest.Elems() == v.frames[f].idx.Elems() - {b} == {r}
    requires forall d :: v.frames[f].idx.Covers(d) ==> rest.Covers(d)
    ensures r < |v.solved| && v.solved[r].None?
    ensures Running(Removed(v, f, rest, arena, false), queue + [(r, v.frames[f].off)], VisitQueue(c, f, b, r), k, w, sys, len, b, todo - {f})
    ensures Done(VisitQueue(c, f, b, r)) == Done(c) && |VisitQueue(c, f, b, r).slots| == |c.slots|
  {
    VisitCoupledFacts(v, queue, c, k, w, f, b);
    SoundVisitable(c, k, w, sys, len, f, b, todo);
    VisitQueueSound(c, k, w, sys, len, f, b, todo, r);
    VisitQueueCoupled(v, queue, c, k, w, f, b, r, rest, arena);
  }

  /* ---------- accepting an equation, on fields and store ---------- */

  lemma AcceptRedundant(v: Fields, c: Store, k: nat, w: nat, sys: System, len: nat, q: nat, eqn: Equation)
    requires Running(v, [], c, k, w, sys, len, 0, {}) && q !in sys && eqn.idx <= Done(c)
    ensures Running(v, [], c, k, w, sys[q := eqn], len, 0, {})
  {
    AddRedundantSound(c, k, w, sys, len, 0, q, eqn);
  }

  /** The new slot at the end of the arena while the solved blocks `known` are being eliminated from it. */
  ghost predicate Reducing(
      v: Fields, arena: seq<bv32>, words: Block, c: Store, k: nat, w: nat, sys: System, len: nat, eqn: Equation, known: set<nat>) {
    && Running(v, [], c, k, w, sys, len, 0, {})
    && Chunked(arena, c.slots + [words], w)
    && Eliminated(words, eqn, known, sys, k, w) && ZeroPadded(words, len)
  }

  lemma ReduceStart(v: Fields, c: Store, k: nat, w: nat, sys: System, len: nat, eqn: Equation)
    requires Running(v, [], c, k, w, sys, len, 0, {})
    requires |eqn.rhs| == w && ZeroPadded(eqn.rhs, len)
    ensures Reducing(v, v.arena + eqn.rhs, eqn.rhs, c, k, w, sys, len, eqn, {})
  {
    AppendChunk(v.arena, c.slots, w, eqn.rhs);
    assert eqn.idx - {} == eqn.idx;
  }

  /** The slot of a solved block, as an offset and as a value. */
  lemma KnownSlot(v: Fields, c: Store, k: nat, w: nat, sys: System, len: nat, b: nat)
    requires Running(v, [], c, k, w, sys, len, 0, {}) && b < k && |v.solved| == k && v.solved[b].Some?
    ensures |c.solved| == k && c.solved[b].Some? && c.solved[b].value < |c.slots| == |c.rows|
    ensures v.solved[b].value == c.solved[b].value * w && |c.slots[c.solved[b].value]| == w
  {
    SoundShape(c, k, w, sys, len, 0, {});
  }

  /** XORing an earlier slot into the last one. */
  lemma ReduceChunk(arena: seq<bv32>, slots: seq<Block>, words: Block, w: nat, t: nat)
    requires Chunked(arena, slots + [words], w) && t < |slots| && |slots[t]| == |words|
    ensures var a, s := |slots| * w, t * w;
            && a + w <= |arena| && s + w <= |arena| && (a + w <= s || s + w <= a)
            && Chunked(XoredAt(arena, a, s, w), slots + [Xor(words, slots[t])], w)
  {
    hide Chunked, XoredAt, Xor;
    XoredAtChunks(arena, slots + [words], w, |slots|, t);
    assert (slots + [words])[|slots| := Xor(words, slots[t])] == slots + [Xor(words, slots[t])];
  }

  /** One `xor_at` into the new slot: it stays clear of the slot it reads. */
  lemma ReduceStep(
      v: Fields, arena: seq<bv32>, words: Block, c: Store, k: nat, w: nat, sys: System, len: nat, eqn: Equation, known: set<nat>, b: nat)
    requires Reducing(v, arena, words, c, k, w, sys, len, eqn, known)
    requires b in eqn.idx && b !in known && b < k && |v.solved| == k && v.solved[b].Some?
    ensures c.solved[b].Some? && c.solved[b].value < |c.slots| && |c.slots[c.solved[b].value]| == |words|
    ensures var a, s, words' := |c.slots| * w, v.solved[b].value, Xor(words, c.slots[c.solved[b].value]);
            && a + w <= |arena| && s + w <= |arena| && (a + w <= s || s + w <= a)
            && Reducing(v, XoredAt(arena, a, s, w), words', c, k, w, sys, len, eqn, known + {b})
  {
    hide Chunked, XoredAt, Xor, Inv, AllMean, AllPadded, Coupled, ZeroPadded;
    KnownSlot(v, c, k, w, sys, len, b);
    ReduceChunk(arena, c.slots, words, w, c.solved[b].value);
    EliminateOne(words, eqn, known, c, sys, k, w, len, 0, b);
  }

  lemma AcceptSingle(
      v: Fields, arena: seq<bv32>, words: Block, c: Store, k: nat, w: nat, sys: System, len: nat, q: nat, eqn: Equation, b: nat)
    requires Reducing(v, arena, words, c, k, w, sys, len, eqn, eqn.idx * Done(c))
    requires q !in sys && eqn.idx <= Below(k) && eqn.idx - Done(c) == {b}
    ensures Running(v.(arena := arena), [(b, |c.slots| * w)], AddSingle(c, eqn.idx, words, b), k, w, sys[q := eqn], len, 0, {})
    ensures Done(AddSingle(c, eqn.idx, words, b)) == Done(c)
  {
    SoundShape(c, k, w, sys, len, 0, {});
    AddSingleSound(c, k, w, sys, len, 0, q, eqn, words, b);
    AddSingleCoupled(v, c, k, w, eqn.idx, words, b, arena);
  }

  lemma AcceptPending(
      v: Fields, arena: seq<bv32>, words: Block, c: Store, k: nat, w: nat, sys: System, len: nat, q: nat, eqn: Equation,
      us: seq<nat>, idx: BlockSet, byBlock: seq<seq<nat>>)
    requires Reducing(v, arena, words, c, k, w, sys, len, eqn, eqn.idx * Done(c))
    requires q !in sys && eqn.idx <= Below(k) && Distinct(us) && |us| >= 2 && Members(us) == eqn.idx - Done(c)
    requires idx.Valid() && idx.Elems() == Members(us) && forall b :: 0 <= b < k ==> idx.Covers(b)
    requires byBlock == Enlist(v.byBlock, us, |v.frames|)
    ensures Running(Fields(v.solved, v.frames + [PendingFrame(idx, |c.slots| * w, true)], byBlock, arena),
                    [], AddPending(c, eqn.idx, words, us), k, w, sys[q := eqn], len, 0, {})
    ensures Done(AddPending(c, eqn.idx, words, us)) == Done(c)
  {
    SoundShape(c, k, w, sys, len, 0, {});
    AddPendingSound(c, k, w, sys, len, 0, q, eqn, words, us);
    AddPendingCoupled(v, c, k, w, eqn.idx, words, us, arena, idx, byBlock);
  }

  /** Appending to the lists one block at a time. */
  lemma EnlistStep(byBlock: seq<seq<nat>>, us: seq<nat>, i: nat, f: nat)
    requires i < |us| && Distinct(us) && us[i] < |byBlock|
    ensures var now := Enlist(byBlock, us[..i], f);
            Enlist(byBlock, us[..i + 1], f) == now[us[i] := now[us[i]] + [f]]
  {
    assert us[..i + 1] == us[..i] + [us[i]];
    assert us[i] !in us[..i];
  }

  lemma EnlistNone(byBlock: seq<seq<nat>>, f: nat)
    ensures Enlist(byBlock, [], f) == byBlock
  {
  }
}
