/** The decoder's equation store on values: what each arena slot means, which
    frames wait for which block, and what every step of the cascade keeps.  The
    imperative decoder (Decoder.dfy) carries one `Store` as ghost state. */
module Equations {
  import opened Common
  import opened Words
  import opened Sets
  import opened Peeling

  /** An accepted equation: the XOR of the blocks in `idx` is `rhs`. */
  datatype Equation = Equation(idx: set<nat>, rhs: Block)

  /** Accepted equations by sequence number. */
  type System = map<nat, Equation>

  /** What a slot of the arena is for. */
  datatype Role =
    | Pending(frame: nat)   // the XOR of the blocks frame `frame` still waits for
    | Queued(block: nat)    // the value of `block`, waiting in the work list
    | Holds(block: nat)     // the value of the solved block `block`
    | Spent                 // a value that arrived after its block was solved

  datatype Row = Row(eqn: set<nat>, role: Role)

  datatype Frame = Frame(idx: set<nat>, slot: nat, active: bool)

  datatype Store = Store(
    solved: seq<Option<nat>>,
    frames: seq<Frame>,
    byBlock: seq<seq<nat>>,
    slots: seq<Block>,
    rows: seq<Row>,
    queue: seq<(nat, nat)>)

  /** The solved blocks. */
  ghost function Done(c: Store): set<nat> {
    set b: nat | b < |c.solved| && c.solved[b].Some?
  }

  ghost function FamilyOf(sys: System): Family {
    set q | q in sys :: sys[q].idx
  }

  ghost predicate Satisfies(x: seq<Block>, sys: System, k: nat, w: nat) {
    IsSource(x, k, w) && forall q :: q in sys ==> Sum(x, sys[q].idx, w) == sys[q].rhs
  }

  /* ---------- the invariant ---------- */

  ghost predicate Shape(c: Store, k: nat, w: nat) {
    && |c.solved| == k && |c.byBlock| == k && |c.rows| == |c.slots|
    && (forall s :: 0 <= s < |c.slots| ==> |c.slots[s]| == w)
    && (forall s :: 0 <= s < |c.rows| ==> c.rows[s].eqn <= Below(k))
    && |c.frames| <= |c.rows|
  }

  /** Roles, solved blocks, frames and queue entries point at each other: no slot serves two purposes. */
  ghost predicate SolvedLinked(c: Store) {
    && (forall b {:trigger c.solved[b]} :: 0 <= b < |c.solved| && c.solved[b].Some? ==>
         c.solved[b].value < |c.rows| && c.rows[c.solved[b].value].role == Holds(b))
    && (forall s {:trigger c.rows[s]} :: 0 <= s < |c.rows| && c.rows[s].role.Holds? ==>
         c.rows[s].role.block < |c.solved| && c.solved[c.rows[s].role.block] == Some(s))
  }

  ghost predicate FramesLinked(c: Store) {
    && (forall f {:trigger c.frames[f]} :: 0 <= f < |c.frames| && c.frames[f].active ==>
         c.frames[f].slot < |c.rows| && c.rows[c.frames[f].slot].role == Pending(f))
    && (forall s {:trigger c.rows[s]} :: 0 <= s < |c.rows| && c.rows[s].role.Pending? ==>
         && c.rows[s].role.frame < |c.frames|
         && c.frames[c.rows[s].role.frame].active && c.frames[c.rows[s].role.frame].slot == s)
  }

  ghost predicate QueueLinked(c: Store) {
    && (forall j {:trigger c.queue[j]} :: 0 <= j < |c.queue| ==>
         c.queue[j].0 < |c.solved| && c.queue[j].1 < |c.rows| && c.rows[c.queue[j].1].role == Queued(c.queue[j].0))
    && (forall i, j {:trigger c.queue[i], c.queue[j]} :: 0 <= i < j < |c.queue| ==> c.queue[i].1 != c.queue[j].1)
    && (forall s {:trigger c.rows[s]} :: 0 <= s < |c.rows| && c.rows[s].role.Queued? ==>
         (c.rows[s].role.block, s) in c.queue)
  }

  /** What is left of the equation in slot `s`.  While block `cur` is being propagated, the frames of
      `todo` have not had it removed yet. */
  ghost predicate Reduced(c: Store, s: nat, cur: nat, todo: set<nat>)
    requires s < |c.rows|
  {
    var e, done := c.rows[s].eqn, Done(c);
    match c.rows[s].role
    case Pending(f) =>
      && f < |c.frames|
      && |c.frames[f].idx| >= 2
      && c.frames[f].idx <= e <= c.frames[f].idx + done
      && c.frames[f].idx * done == if f in todo then {cur} else {}
    case Queued(b) => b in e && e - {b} <= done
    case Holds(b) => e <= done
    case Spent => e <= done
  }

  ghost predicate AllReduced(c: Store, cur: nat, todo: set<nat>) {
    forall s :: 0 <= s < |c.rows| ==> Reduced(c, s, cur, todo)
  }

  /** `by_block` lists, without repetition, exactly the active frames that wait for an unsolved block;
      entries of frames that became inactive may remain. */
  ghost predicate Adjacent(c: Store, b: nat)
    requires b < |c.byBlock|
  {
    && Distinct(c.byBlock[b])
    && (forall f :: f in c.byBlock[b] ==> f < |c.frames| && (c.frames[f].active ==> b in c.frames[f].idx))
    && (forall f :: 0 <= f < |c.frames| && c.frames[f].active && b in c.frames[f].idx && b !in Done(c) ==> f in c.byBlock[b])
    && (b in Done(c) ==> c.byBlock[b] == [])
  }

  ghost predicate AllAdjacent(c: Store) {
    forall b :: 0 <= b < |c.byBlock| ==> Adjacent(c, b)
  }

  /** Every solved block follows by peeling, and every accepted equation is stored or exhausted. */
  ghost predicate Justified(c: Store, fam: Family) {
    && (forall t :: Closed(fam, t) ==> Done(c) <= t)
    && (forall s :: 0 <= s < |c.rows| ==> c.rows[s].eqn in fam)
    && (forall e :: e in fam ==> e <= Done(c) || exists s :: 0 <= s < |c.rows| && c.rows[s].eqn == e)
  }

  ghost predicate Inv(c: Store, k: nat, w: nat, fam: Family, cur: nat, todo: set<nat>) {
    && Shape(c, k, w) && SolvedLinked(c) && FramesLinked(c) && QueueLinked(c)
    && AllReduced(c, cur, todo) && AllAdjacent(c) && Justified(c, fam)
  }

  /** Slot `s` holds what its role says, for the source vector `x`. */
  ghost predicate SlotMeans(c: Store, s: nat, x: seq<Block>, w: nat)
    requires s < |c.rows| && |c.rows| == |c.slots| && IsSource(x, |x|, w)
  {
    match c.rows[s].role
    case Pending(f) => f < |c.frames| && c.slots[s] == Sum(x, c.frames[f].idx, w)
    case Queued(b) => b < |x| && c.slots[s] == x[b]
    case Holds(b) => b < |x| && c.slots[s] == x[b]
    case Spent => true
  }

  ghost predicate Means(c: Store, x: seq<Block>, w: nat)
    requires |c.rows| == |c.slots| && IsSource(x, |x|, w)
  {
    forall s :: 0 <= s < |c.rows| ==> SlotMeans(c, s, x, w)
  }

  /* ---------- consequences between steps ---------- */

  /** With an empty work list no accepted equation has exactly one unsolved block, and the solved blocks
      are exactly what peeling determines. */
  lemma QuiescentIsPeeled(c: Store, k: nat, w: nat, fam: Family, cur: nat)
    requires Inv(c, k, w, fam, cur, {}) && c.queue == [] && Within(fam, k)
    ensures Done(c) == Peel(fam, k)
  {
    forall e, b | e in fam ensures !Reveals(e, Done(c), b) {
      if !(e <= Done(c)) {
        var s :| 0 <= s < |c.rows| && c.rows[s].eqn == e;
        assert Reduced(c, s, cur, {});
        RestHasTwo(c, s, cur, b);
      }
    }
    LeastIsPeel(fam, k, Done(c));
  }

  lemma RestHasTwo(c: Store, s: nat, cur: nat, b: nat)
    requires s < |c.rows| && Reduced(c, s, cur, {}) && QueueLinked(c) && c.queue == []
    ensures !Reveals(c.rows[s].eqn, Done(c), b)
  {
    var e := c.rows[s].eqn;
    if c.rows[s].role.Pending? && Reveals(e, Done(c), b) {
      var idx := c.frames[c.rows[s].role.frame].idx;
      assert idx <= {b};
      SubsetSize(idx, {b});
    }
  }
}
