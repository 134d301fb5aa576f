/** The peeling decoder (src/fountain.rs, `LtDecoder`): an in-place graph
    algorithm over one flat arena, proved to refine the reference decoder of
    Codec.dfy frame by frame. */
module Decoder {
  import opened Common
  import opened Words
  import opened Sets
  import opened Modular
  import opened Soliton
  import opened Selection
  import opened Capacity
  import opened Equations
  import opened Cascade
  import opened Soundness
  import opened Coupling
  import opened Codec
  import opened BlockSets
  import opened Arena
  import opened U32Sets

  class LtDecoder {
    const cfg: Config
    const words: nat
    const cdf: DegreeCdf
    const maxArenaWords: nat
    const maxPendingEdges: nat
    const seen: U32Set
    var solved: seq<Option<nat>>
    var solvedCount: nat
    var frames: seq<PendingFrame>
    var byBlock: seq<seq<nat>>
    var idx: seq<nat>
    var idxScratch: seq<nat>
    var arena: seq<bv32>
    var pendingEdges: nat
    var framesNew: nat
    var framesDup: nat
    var framesDropped: nat
    /** The equations accepted so far, by sequence number. */
    ghost var acc: System
    /** What the fields mean. */
    ghost var store: Store

    /** The parameters fixed at construction. */
    ghost predicate Fixed() {
      && ConfigOk(cfg) && words == WordCount(cfg) > 0 && cfg.k > 0
      && cdf.Valid() && cdf.cdf == Cdf(cfg.libm, cfg.k)
      && maxArenaWords == cfg.k * words * 4 && maxPendingEdges == cfg.k * 64
    }

    ghost function Now(): Fields
      reads this
    {
      Fields(solved, frames, byBlock, arena)
    }

    /** Fields and store agree, and the store is sound, while `queue` is being worked off. */
    ghost predicate Live(queue: seq<(nat, nat)>, cur: nat, todo: set<nat>)
      reads this
    {
      && Running(Now(), queue, store, cfg.k, words, acc, cfg.blockLen, cur, todo)
      && solvedCount == |Done(store)| && Total(byBlock) <= pendingEdges
    }

    /** The reference state this object implements. */
    ghost function View(): Abs
      reads this
    {
      Abs(acc, |store.slots|, pendingEdges, framesDup, framesDropped)
    }

    ghost predicate Valid()
      reads this, seen
    {
      && Fixed() && Live([], 0, {})
      && seen.Valid() && seen.Contents() == acc.Keys
      && SystemOk(cfg, acc)
      && framesNew == |acc| && |store.slots| <= |acc|
      && |store.slots| <= 4 * cfg.k && pendingEdges <= 64 * cfg.k
    }

    /** A fresh decoder for checked parameters. */
    constructor (cfg: Config, cdf: DegreeCdf, seen: U32Set)
      requires ConfigOk(cfg) && cdf.Valid() && cdf.cdf == Cdf(cfg.libm, cfg.k)
      requires seen.Valid() && seen.Contents() == {}
      ensures Valid() && this.cfg == cfg && this.seen == seen && View() == EMPTY_ABS
    {
      hide Running, ConfigOk, Cdf, EmptyStore, Done, Total, U32Set.Valid, U32Set.Contents, DegreeCdf.Valid, WordCount;
      ConfigFacts(cfg);
      this.cfg, words, this.cdf := cfg, WordCount(cfg), cdf;
      maxArenaWords, maxPendingEdges := cfg.k * WordCount(cfg) * 4, cfg.k * 64;
      this.seen := seen;
      solved, solvedCount, frames := seq(cfg.k, _ => None), 0, [];
      byBlock, idx, idxScratch, arena := seq(cfg.k, _ => []), [], [], [];
      pendingEdges, framesNew, framesDup, framesDropped := 0, 0, 0, 0;
      acc := map[];
      store := EmptyStore(cfg.k);
      new;
      EmptyRunning(Now(), cfg.k, words, cfg.blockLen);
    }

    /** The work list, last in first out.  Ends because each round solves a block or shortens the list. */
    method Resolve(queue0: seq<(nat, nat)>)
      requires Fixed() && Live(queue0, 0, {})
      modifies this`solved, this`solvedCount, this`frames, this`byBlock, this`arena, this`store
      ensures Live([], 0, {})
      ensures |store.slots| == |old(store).slots|
    {
      hide Running, PopSpent, PopSolve, Fixed, Done, Total;
      var queue := queue0;
      ghost var cur := 0;
      while queue != []
        invariant Live(queue, cur, {}) && |store.slots| == |old(store).slots|
        decreases cfg.k - |Done(store)|, |queue|
      {
        TopIsBlock(Now(), queue, store, cfg.k, words, acc, cfg.blockLen, cur);
        var (b, off) := queue[|queue| - 1];
        if solved[b].Some? {
          DropSpent(Now(), queue, store, cfg.k, words, acc, cfg.blockLen, cur);
          store := PopSpent(store);
          queue := queue[..|queue| - 1];
        } else {
          Settle(Now(), queue, store, cfg.k, words, acc, cfg.blockLen, cur);
          TotalClear(byBlock, b);
          var waiting := byBlock[b];
          solved := solved[b := Some(off)];
          solvedCount := solvedCount + 1;
          byBlock := byBlock[b := []];
          store, cur := PopSolve(store), b;
          queue := Propagate(queue[..|queue| - 1], b, waiting);
        }
      }
      ResolveDone(cur);
    }

    lemma ResolveDone(cur: nat)
      requires Live([], cur, {})
      ensures Live([], 0, {})
    {
      CurrentIrrelevant(store, cfg.k, words, acc, cfg.blockLen, cur, 0);
    }

    /** Removes the newly solved block `b` from the frames waiting for it. */
    method Propagate(queue0: seq<(nat, nat)>, b: nat, waiting: seq<nat>) returns (queue: seq<(nat, nat)>)
      requires Fixed() && b < cfg.k && b in Done(store) && Live(queue0, b, Members(waiting))
      requires Distinct(waiting) && forall f :: f in waiting ==> f < |frames|
      modifies this`frames, this`arena, this`store
      ensures Live(queue, b, {})
      ensures Done(store) == old(Done(store)) && |store.slots| == |old(store).slots|
    {
      hide Running, Fixed, Done, Total;
      queue := queue0;
      assert waiting[0..] == waiting;
      for j := 0 to |waiting|
        invariant Live(queue, b, Members(waiting[j..])) && |frames| == |old(frames)|
        invariant Done(store) == old(Done(store)) && |store.slots| == |old(store).slots|
      {
        assert Members(waiting[j..]) - {waiting[j]} == Members(waiting[j + 1..]);
        assert waiting[j] in waiting && waiting[j] in Members(waiting[j..]);
        queue := Visit(queue, b, waiting[j], Members(waiting[j..]));
      }
      assert waiting[|waiting|..] == [] && Members([]) == {};
    }

    /** One waiting frame: a retired frame is skipped; an active one never runs out of blocks here. */
    method Visit(queue0: seq<(nat, nat)>, b: nat, f: nat, ghost todo: set<nat>) returns (queue: seq<(nat, nat)>)
      requires Fixed() && b < cfg.k && b in Done(store) && Live(queue0, b, todo) && f < |frames| && f in todo
      modifies this`frames, this`arena, this`store
      ensures Live(queue, b, todo - {f}) && |frames| == |old(frames)|
      ensures Done(store) == old(Done(store)) && |store.slots| == |old(store).slots|
    {
      hide Running, Fixed, Done, Total, VisitKeep, VisitQueue, Chunked, XoredAt;
      queue := queue0;
      ghost var v := Now();
      if !frames[f].active {
        Skip(v, queue, store, cfg.k, words, acc, cfg.blockLen, f, b, todo);
        return;
      }
      VisitReady(v, queue, store, cfg.k, words, acc, cfg.blockLen, f, b, todo);
      var xored := XorAt(arena, frames[f].off, solved[b].value, words);
      var rest := frames[f].idx.Remove(b);
      assert rest.Len() != 0;  // the source's arm for an empty set is never taken
      if rest.Len() == 1 {
        var r := rest.Single();
        SubsetSize({r}, rest.Elems());
        Retire(v, queue, store, cfg.k, words, acc, cfg.blockLen, f, b, todo, rest, xored, r);
        store := VisitQueue(store, f, b, r);
        arena := xored;
        frames := frames[f := PendingFrame(rest, frames[f].off, false)];
        if solved[r].None? {
          queue := queue + [(r, frames[f].off)];
        }
      } else {
        Keep(v, queue, store, cfg.k, words, acc, cfg.blockLen, f, b, todo, rest, xored);
        store := VisitKeep(store, f, b);
        arena := xored;
        frames := frames[f := PendingFrame(rest, frames[f].off, true)];
      }
    }

    lemma ViewOk()
      requires Valid()
      ensures ConfigOk(cfg) && words == WordCount(cfg) && View().acc == acc && SystemOk(cfg, acc)
    {
    }

    /* ---------- receiving a frame ---------- */

    predicate IsComplete()
      reads this
    {
      solvedCount >= cfg.k
    }

    /** The solved blocks are what peeling determines from the accepted equations, in any order. */
    lemma SolvedIsPeeled()
      requires Valid()
      ensures Done(store) == Solved(cfg, acc)
      ensures IsComplete() <==> Complete(cfg, acc)
      ensures |solved| == cfg.k && forall b :: 0 <= b < cfg.k ==> (solved[b].Some? <==> b in Solved(cfg, acc))
      ensures |arena| == |store.slots| * words
    {
      FamilyWithin(cfg, acc);
      RunningFacts(Now(), [], store, cfg.k, words, acc, cfg.blockLen, 0, {});
      QuiescentIsPeeled(store, cfg.k, words, FamilyOf(acc), 0);
      SubsetSize(Done(store), Below(cfg.k));
    }

    /** The index list of a frame: direct or causal first phase, then the derived subsets. */
    method ComputeIndices(q: u32)
      requires Fixed()
      modifies this`idx, this`idxScratch
      ensures idx == Indices(cfg, q)
    {
      if q < cfg.sysSpan && !cfg.causal {
        idx := [q % cfg.k];
        SmallMod(q, cfg.k);
      } else if q < cfg.sysSpan {
        idx := if q != 0 then [q - 1] else [];
        idx := idx + [q];
      } else {
        idx, idxScratch := FrameIndicesInto(idxScratch, cdf, cfg.session, q);
      }
    }

    /** The blocks of `idx` that are not solved yet, in order. */
    method Unknown() returns (us: seq<nat>)
      requires |solved| == cfg.k && Distinct(idx) && AllBelow(idx, cfg.k)
      ensures Distinct(us)
      ensures forall b :: b in us <==> b in idx && solved[b].None?
    {
      us := [];
      for i := 0 to |idx|
        invariant Distinct(us)
        invariant forall b :: b in us <==> b in idx[..i] && solved[b].None?
      {
        if solved[idx[i]].None? {
          us := us + [idx[i]];
        }
      }
      assert idx[..|idx|] == idx;
    }

    /** Turns the block of a new frame into a slot of the arena with the solved blocks eliminated. */
    method Eliminate(block: seq<bv8>, ghost eqn: Equation) returns (off: nat, ghost v: Block)
      requires Fixed() && Live([], 0, {}) && |block| == cfg.blockLen
      requires Distinct(idx) && AllBelow(idx, cfg.k) && eqn == Equation(Members(idx), WordsOf(block, words))
      modifies this`arena
      ensures off == |store.slots| * words
      ensures Reducing(old(Now()), arena, v, store, cfg.k, words, acc, cfg.blockLen, eqn, eqn.idx * Done(store))
    {
      hide Running, Reducing, Fixed, WordsOf, Done, Total, XoredAt, Chunked, Distinct, AllBelow, Members;
      ghost var fields := Now();
      RunningFacts(fields, [], store, cfg.k, words, acc, cfg.blockLen, 0, {});
      off := |arena|;
      v := WordsOf(block, words);
      FrameWords(block);
      ReduceStart(fields, store, cfg.k, words, acc, cfg.blockLen, eqn);
      arena := arena + WordsOf(block, words);
      ghost var known := {};
      NoMembers(idx);
      for i := 0 to |idx|
        invariant Reducing(fields, arena, v, store, cfg.k, words, acc, cfg.blockLen, eqn, known)
        invariant known == Members(idx[..i]) * Done(store)
      {
        var b := idx[i];
        NextMember(idx, i, cfg.k);
        if solved[b].Some? {
          ReduceStep(fields, arena, v, store, cfg.k, words, acc, cfg.blockLen, eqn, known, b);
          arena := XorAt(arena, off, solved[b].value, words);
          v := Xor(v, store.slots[store.solved[b].value]);
          known := known + {b};
        }
      }
      assert idx[..|idx|] == idx;
    }

    /** Stores a new equation with at least one unsolved block: a single block is resolved at once, several
        are waited for. */
    method StoreEquation(q: u32, block: seq<bv8>, us: seq<nat>, ghost eqn: Equation)
      requires Fixed() && Live([], 0, {}) && |block| == cfg.blockLen && q !in acc && us != []
      requires Distinct(idx) && AllBelow(idx, cfg.k) && eqn == Equation(Members(idx), WordsOf(block, words))
      requires Distinct(us) && Members(us) == eqn.idx - Done(store)
      modifies this`solved, this`solvedCount, this`frames, this`byBlock, this`arena, this`pendingEdges, this`acc, this`store
      ensures Live([], 0, {})
      ensures acc == old(acc)[q := eqn] && |store.slots| == |old(store).slots| + 1
      ensures pendingEdges == old(pendingEdges) + if |us| > 1 then |us| else 0
    {
      hide Running, Reducing, Fixed, WordsOf, Done, Total, Chunked, AddSingle, AddPending, Enlist, Distinct;
      ghost var fields := Now();
      RunningFacts(fields, [], store, cfg.k, words, acc, cfg.blockLen, 0, {});
      MembersBelow(idx, cfg.k);
      SameUnknown(eqn.idx, Done(store));
      var off;
      ghost var v;
      off, v := Eliminate(block, eqn);
      if |us| == 1 {
        OnlyMember(us);
        AcceptSingle(fields, arena, v, store, cfg.k, words, acc, cfg.blockLen, q, eqn, us[0]);
        AddedSlots(store, eqn.idx, v, us);
        store := AddSingle(store, eqn.idx, v, us[0]);
        acc := acc[q := eqn];
        Resolve([(us[0], off)]);
      } else {
        UnknownBelow(us, eqn.idx, Done(store), cfg.k);
        var waits := NewBlockSet(cfg.k, us);
        AcceptPending(fields, arena, v, store, cfg.k, words, acc, cfg.blockLen, q, eqn, us, waits, Enlist(byBlock, us, |frames|));
        AddedSlots(store, eqn.idx, v, us);
        ghost var next := AddPending(store, eqn.idx, v, us);
        WaitFor(us, PendingFrame(waits, off, true), acc[q := eqn], next);
      }
    }

    /** The new frame joins the adjacency lists of all its unsolved blocks. */
    method WaitFor(us: seq<nat>, frame: PendingFrame, ghost acc': System, ghost next: Store)
      requires Running(Fields(solved, frames + [frame], Enlist(byBlock, us, |frames|), arena), [], next,
                       cfg.k, words, acc', cfg.blockLen, 0, {})
      requires solvedCount == |Done(next)| && Total(byBlock) <= pendingEdges
      requires Distinct(us) && AllBelow(us, |byBlock|)
      modifies this`frames, this`byBlock, this`pendingEdges, this`acc, this`store
      ensures Live([], 0, {}) && acc == acc' && store == next
      ensures pendingEdges == old(pendingEdges) + |us|
    {
      hide Running, Done, Total, Enlist;
      Register(us, |frames|);
      pendingEdges := pendingEdges + |us|;
      frames := frames + [frame];
      acc, store := acc', next;
    }

    /** Appends frame `f` to the list of every block it waits for. */
    method Register(us: seq<nat>, f: nat)
      requires Distinct(us) && AllBelow(us, |byBlock|)
      modifies this`byBlock
      ensures byBlock == Enlist(old(byBlock), us, f) && Total(byBlock) == Total(old(byBlock)) + |us|
    {
      hide Enlist, Total;
      EnlistNone(byBlock, f);
      assert us[..0] == [];
      for i := 0 to |us|
        invariant byBlock == Enlist(old(byBlock), us[..i], f) && Total(byBlock) == Total(old(byBlock)) + i
      {
        EnlistStep(old(byBlock), us, i, f);
        TotalAppend(byBlock, us[i], f);
        byBlock := byBlock[us[i] := byBlock[us[i]] + [f]];
      }
      assert us[..|us|] == us;
    }

    /** A frame that passed every test: it is recorded, counted, and stored unless it is redundant. */
    method AcceptFrame(q: u32, block: seq<bv8>, us: seq<nat>)
      requires Valid() && |block| == cfg.blockLen && q !in acc && !OverBudget(cfg, View(), q)
      requires idx == Indices(cfg, q)
      requires Distinct(us) && Members(us) == IndexSet(cfg, q) - Done(store) && Done(store) == Solved(cfg, acc)
      modifies this, seen
      ensures Valid() && View() == Accept(cfg, old(View()), q, block)
    {
      hide Running, ConfigOk, Cdf, Solved, Indices, Done, Total, WordsOf, U32Set.Valid, U32Set.Contents, Accept,
           SystemOk, OverBudget;
      ghost var a := View();
      ghost var eqn := Equation(IndexSet(cfg, q), WordsOf(block, words));
      AcceptKeepsOk(cfg, a, q, block);
      AcceptIs(cfg, a, q, block, us);
      var inserted := seen.Insert(q);
      framesNew := framesNew + 1;
      Place(q, block, us, eqn);
    }

    /** A redundant equation needs no storage. */
    method Place(q: u32, block: seq<bv8>, us: seq<nat>, ghost eqn: Equation)
      requires Fixed() && Live([], 0, {}) && |block| == cfg.blockLen && q !in acc
      requires Distinct(idx) && AllBelow(idx, cfg.k) && eqn == Equation(Members(idx), WordsOf(block, words))
      requires Distinct(us) && Members(us) == eqn.idx - Done(store)
      modifies this`solved, this`solvedCount, this`frames, this`byBlock, this`arena, this`pendingEdges, this`acc, this`store
      ensures Live([], 0, {})
      ensures acc == old(acc)[q := eqn] && |store.slots| == |old(store).slots| + if us == [] then 0 else 1
      ensures pendingEdges == old(pendingEdges) + if |us| > 1 then |us| else 0
    {
      hide Running, Fixed, Done, Total, WordsOf, Distinct, AllBelow, Members;
      if us == [] {
        NoneUnknown(eqn.idx, Done(store), us);
        AcceptRedundant(Now(), store, cfg.k, words, acc, cfg.blockLen, q, eqn);
        acc := acc[q := eqn];
      } else {
        StoreEquation(q, block, us, eqn);
      }
    }

    /** A new frame of the right length: its subset is derived, the budgets are tested, and it is kept or dropped. */
    method Charge(q: u32, block: seq<bv8>)
      requires Valid() && |block| == cfg.blockLen && q !in acc
      modifies this, seen
      ensures Valid()
      ensures View() == if OverBudget(cfg, old(View()), q) then old(View()).(dropped := old(View()).dropped + 1)
                        else Accept(cfg, old(View()), q, block)
    {
      hide Running, ConfigOk, Cdf, Solved, Indices, Done, Total, WordsOf, U32Set.Valid, U32Set.Contents, IndicesFrom,
           Accept, SystemOk, OverBudget, Complete,
           Distinct, AllBelow, Members, IndexSet;
      ghost var a := View();
      ComputeIndices(q);
      IndexFacts(cfg, q);
      SolvedIsPeeled();
      var us := Unknown();
      UnknownMembers(us, idx, solved, Solved(cfg, acc), cfg.k);
      AcceptIs(cfg, a, q, block, us);
      ArenaBudget(|store.slots|, words, cfg.k);
      var newEdges := if |us| > 1 then |us| else 0;
      if |arena| + words > maxArenaWords || pendingEdges + newEdges > maxPendingEdges {
        framesDropped := framesDropped + 1;
      } else {
        AcceptFrame(q, block, us);
      }
    }

    /** Feeds one frame.  The object then implements exactly the reference step. */
    method AddFrame(q: u32, block: seq<bv8>)
      requires Valid()
      modifies this, seen
      ensures Valid() && View() == Step(cfg, old(View()), q, block)
    {
      hide Running, ConfigOk, Cdf, Solved, Indices, Done, Total, WordsOf, U32Set.Valid, IndicesFrom, Accept,
           SystemOk, OverBudget, Complete;
      if |block| != cfg.blockLen {
        framesDropped := framesDropped + 1;
        return;
      }
      SolvedIsPeeled();
      if IsComplete() {
        return;
      }
      var known := seen.Contains(q);
      if known {
        framesDup := framesDup + 1;
        return;
      }
      Charge(q, block);
    }

    /** The resource bounds, on the fields themselves, after any history of calls: arena and adjacency lists stay
        within their budgets, and solved blocks, stored slots and accepted frames are ordered by number. */
    lemma Budgets()
      requires Valid()
      ensures |arena| <= maxArenaWords && |frames| <= 4 * cfg.k
      ensures Total(byBlock) <= pendingEdges <= maxPendingEdges
      ensures solvedCount * words <= |arena| <= framesNew * words
    {
      hide Running, Solved, Done, Total, U32Set.Valid, DegreeCdf.Valid, SystemOk, ConfigOk;
      RunningFacts(Now(), [], store, cfg.k, words, acc, cfg.blockLen, 0, {});
      Proportions(solvedCount, |store.slots|, framesNew, cfg.k, words);
    }

    /** No slot serves two purposes: the slots of waiting frames and of solved blocks are whole slots of the arena and
        never overlap, so `xor_at` never reads what it writes.  Two waiting frames: */
    lemma WaitingSlotsApart(f: nat, g: nat)
      requires Valid() && f < |frames| && frames[f].active && g < |frames| && frames[g].active && f != g
      ensures frames[f].off % words == 0 && Apart(frames[f].off, frames[g].off, words, |arena|)
    {
      hide Solved, Done, Total, U32Set.Valid, DegreeCdf.Valid, SystemOk, ConfigOk, Running, Cdf;
      FrameSlot(Now(), store, cfg.k, words, acc, cfg.blockLen, f);
      FrameSlot(Now(), store, cfg.k, words, acc, cfg.blockLen, g);
      WholeSlots(store.frames[f].slot, store.frames[g].slot, |store.slots|, words);
    }

    /** Two solved blocks: */
    lemma SolvedSlotsApart(b: nat, d: nat)
      requires Valid() && b < |solved| && solved[b].Some? && d < |solved| && solved[d].Some? && b != d
      ensures solved[b].value % words == 0 && Apart(solved[b].value, solved[d].value, words, |arena|)
    {
      hide Solved, Done, Total, U32Set.Valid, DegreeCdf.Valid, SystemOk, ConfigOk, Running, Cdf;
      BlockSlot(Now(), store, cfg.k, words, acc, cfg.blockLen, b);
      BlockSlot(Now(), store, cfg.k, words, acc, cfg.blockLen, d);
      WholeSlots(store.solved[b].value, store.solved[d].value, |store.slots|, words);
    }

    /** A waiting frame and a solved block: */
    lemma WaitingAndSolvedApart(f: nat, b: nat)
      requires Valid() && f < |frames| && frames[f].active && b < |solved| && solved[b].Some?
      ensures Apart(frames[f].off, solved[b].value, words, |arena|)
    {
      hide Solved, Done, Total, U32Set.Valid, DegreeCdf.Valid, SystemOk, ConfigOk, Running, Cdf;
      FrameSlot(Now(), store, cfg.k, words, acc, cfg.blockLen, f);
      BlockSlot(Now(), store, cfg.k, words, acc, cfg.blockLen, b);
      WholeSlots(store.frames[f].slot, store.solved[b].value, |store.slots|, words);
    }

    /** Once every block is solved, only one source vector is left. */
    lemma Recovered()
      requires Valid()
      ensures IsSource(Values(store, words), cfg.k, words)
      ensures Complete(cfg, acc) ==> forall x :: Satisfies(x, acc, cfg.k, words) ==> Values(store, words) == x
    {
      hide Running, Solved, Done, Total, WordCount, U32Set.Valid, DegreeCdf.Valid, Values, Satisfies, IsSource;
      SolvedIsPeeled();
      OnlyOneSource(Now(), store, cfg.k, words, acc, cfg.blockLen);
    }

    /** The recovered payload, once every block is solved: the values in the slots of the solved blocks, cut and joined.
        It is the payload of EVERY source vector that satisfies the accepted equations. */
    method Assemble() returns (r: Option<seq<bv8>>)
      requires Valid()
      ensures r.Some? <==> Complete(cfg, acc)
      ensures IsSource(Values(store, words), cfg.k, words)
      ensures r.Some? ==> r.value == Join(cfg, Values(store, words), cfg.k) && |r.value| == cfg.totalLen
      ensures r.Some? ==> forall x :: Satisfies(x, acc, cfg.k, words) ==> r.value == Join(cfg, x, cfg.k)
    {
      hide Running, Cdf, Solved, Done, Total, U32Set.Valid, SystemOk, Join, Joined, Span, Start,
           BytesOf, Satisfies, IsSource, Values, CeilDiv, WordCount;
      SolvedIsPeeled();
      ghost var x := Values(store, words);
      Recovered();
      if !IsComplete() {
        return None;
      }
      var out: seq<bv8> := seq(cfg.totalLen, _ => 0);
      NothingJoined(cfg, x, out);
      for b := 0 to cfg.k
        invariant |out| == cfg.totalLen && Joined(cfg, x, b, out)
      {
        assert b in Below(cfg.k);
        if solved[b].Some? {
          var start := b * cfg.blockLen;
          Extent(cfg, b);
          var len := Min(cfg.blockLen, cfg.totalLen - start);
          SolvedSlot(Now(), store, cfg.k, words, acc, cfg.blockLen, b);
          var src := BytesOf(arena[solved[b].value..solved[b].value + words]);
          JoinStep(cfg, x, b, out);
          out := out[..start] + src[..len] + out[start + len..];
        }
      }
      JoinDone(cfg, x, out);
      r := Some(out);
    }

    /** The words of a received block are zero beyond its bytes. */
    lemma FrameWords(block: seq<bv8>)
      requires Fixed() && |block| == cfg.blockLen
      ensures ZeroPadded(WordsOf(block, words), cfg.blockLen) && |WordsOf(block, words)| == words
    {
      BytesRoundTrip(block, words);
    }
  }

  lemma IndexFacts(cfg: Config, q: u32)
    requires ConfigOk(cfg)
    ensures Distinct(Indices(cfg, q)) && AllBelow(Indices(cfg, q), cfg.k) && Members(Indices(cfg, q)) == IndexSet(cfg, q)
  {
  }

  /** The unsolved blocks of a frame, as a set. */
  lemma UnknownMembers(us: seq<nat>, idx: seq<nat>, solved: seq<Option<nat>>, done: set<nat>, k: nat)
    requires |solved| == k && AllBelow(idx, k)
    requires forall b :: b in us <==> b in idx && solved[b].None?
    requires forall b :: 0 <= b < k ==> (solved[b].Some? <==> b in done)
    ensures Members(us) == Members(idx) - done
  {
  }

  /** `try_new_mode`: the callers pass `sysSpan == k` for the causal and systematic modes, 0 for pure soliton. */
  method TryNewMode(k: nat, blockLen: nat, session: u32, totalLen: nat, sysSpan: nat, causal: bool, libm: Libm)
    returns (r: Result<LtDecoder>)
    requires sysSpan == 0 || sysSpan == k
    ensures r.Err? <==> Refusal(k, blockLen, totalLen).Some?
    ensures r.Err? ==> Refusal(k, blockLen, totalLen) == Some(r.error)
    ensures r.Ok? ==> fresh(r.value) && fresh(r.value.seen) && r.value.Valid() && r.value.View() == EMPTY_ABS
                      && r.value.cfg == Config(k, blockLen, session, totalLen, sysSpan, causal, libm)
  {
    if k == 0 || blockLen == 0 || totalLen == 0 {
      return Err(InvalidStream);
    }
    if k > MAX_SOURCE_BLOCKS || blockLen > U16_MAX {
      return Err(InvalidStream);
    }
    if totalLen > MAX_STREAM_BYTES {
      return Err(TooLarge(totalLen, MAX_STREAM_BYTES));
    }
    if k != CeilDiv(totalLen, blockLen) {
      return Err(InvalidStream);
    }
    hide Cdf, U32Set.Valid, U32Set.Contents, LtDecoder.Valid, LtDecoder.View, CeilDiv;
    var cdf := NewDegreeCdf(libm, k);
    var seen := new U32Set.WithCapacity(k);
    var decoder := new LtDecoder(Config(k, blockLen, session, totalLen, sysSpan, causal, libm), cdf, seen);
    r := Ok(decoder);
  }

  lemma MembersBelow(s: seq<nat>, k: nat)
    requires AllBelow(s, k)
    ensures Members(s) <= Below(k)
  {
  }

  lemma UnknownBelow(us: seq<nat>, e: set<nat>, done: set<nat>, k: nat)
    requires Members(us) == e - done && e <= Below(k)
    ensures AllBelow(us, k)
  {
    assert forall i :: 0 <= i < |us| ==> us[i] in Members(us);
  }

  lemma NoneUnknown(e: set<nat>, done: set<nat>, us: seq<nat>)
    requires us == [] && Members(us) == e - done
    ensures e <= done
  {
    assert forall x :: x in e && x !in done ==> x in Members(us);
  }

  lemma Scale(a: nat, b: nat, w: nat)
    requires a <= b
    ensures a * w <= b * w
  {
    assert b * w == a * w + (b - a) * w;
    assert (b - a) * w >= 0;
  }

  /** Different slots of an arena of `n` slots. */
  lemma WholeSlots(s: nat, t: nat, n: nat, w: nat)
    requires s < n && t < n && s != t && w > 0
    ensures s * w % w == 0 && Apart(s * w, t * w, w, n * w)
  {
    SlotsApart(s, t, n, w);
    Multiple(s, w);
  }

  lemma Proportions(solved: nat, slots: nat, accepted: nat, k: nat, w: nat)
    requires solved <= slots <= accepted && slots <= 4 * k
    ensures solved * w <= slots * w <= accepted * w && slots * w <= k * w * 4
  {
    Scale(solved, slots, w);
    Scale(slots, accepted, w);
    Scale(slots, 4 * k, w);
    assert 4 * k * w == k * w * 4;
  }

  /** What acceptance charges, in terms of the list of unsolved blocks. */
  lemma AcceptIs(cfg: Config, a: Abs, q: u32, block: seq<bv8>, us: seq<nat>)
    requires ConfigOk(cfg) && SystemOk(cfg, a.acc) && Distinct(us) && Members(us) == IndexSet(cfg, q) - Solved(cfg, a.acc)
    ensures var edges := if |us| > 1 then |us| else 0;
            && Accept(cfg, a, q, block) ==
                 Abs(a.acc[q := Equation(IndexSet(cfg, q), WordsOf(block, WordCount(cfg)))],
                     a.stored + (if us == [] then 0 else 1), a.edges + edges, a.duplicates, a.dropped)
            && (OverBudget(cfg, a, q) <==> a.stored + 1 > 4 * cfg.k || a.edges + edges > 64 * cfg.k)
  {
    hide Solved, IndexSet, WordsOf, ConfigOk;
    MembersSize(us);
  }

  lemma AcceptKeepsOk(cfg: Config, a: Abs, q: u32, block: seq<bv8>)
    requires ConfigOk(cfg) && SystemOk(cfg, a.acc) && q !in a.acc
    ensures SystemOk(cfg, Accept(cfg, a, q, block).acc)
    ensures var acc' := Accept(cfg, a, q, block).acc; |acc'| == |a.acc| + 1 && acc'.Keys == a.acc.Keys + {q}
  {
    hide ConfigOk, IndexSet, Solved, WordsOf, NewEdges, Unsolved;
    var acc' := Accept(cfg, a, q, block).acc;
    assert acc'.Keys == a.acc.Keys + {q};
  }

  lemma SameUnknown(e: set<nat>, done: set<nat>)
    ensures e - e * done == e - done
  {
  }

  lemma OnlyMember(us: seq<nat>)
    requires |us| == 1
    ensures Members(us) == {us[0]}
  {
  }

  lemma AddedSlots(c: Store, e: set<nat>, v: Block, us: seq<nat>)
    requires us != []
    ensures |AddSingle(c, e, v, us[0]).slots| == |c.slots| + 1 && |AddPending(c, e, v, us).slots| == |c.slots| + 1
  {
  }

  lemma SmallMod(x: nat, n: nat)
    requires x < n
    ensures x % n == x
  {
  }

  /** The arena budget, in slots: `len + words > 4 * k * words` exactly when one more slot exceeds `4 * k`. */
  lemma ArenaBudget(n: nat, w: nat, k: nat)
    requires w > 0
    ensures n * w + w > k * w * 4 <==> n + 1 > 4 * k
  {
    assert n * w + w == (n + 1) * w && k * w * 4 == (4 * k) * w;
    TimesKeepsOrder(4 * k, n + 1, w);
    TimesKeepsOrder(n + 1, 4 * k, w);
  }
}
