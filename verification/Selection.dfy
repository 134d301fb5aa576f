/** Deterministic subset derivation (src/fountain.rs, `select_blocks` and
    `frame_indices`): which source blocks a repair frame combines. */
module Selection {
  import opened Modular
  import opened Sets
  import opened Prng
  import opened Soliton

  function Identity(k: nat): seq<nat> {
    seq(k, i => i)
  }

  function Swap(s: seq<nat>, i: nat, j: nat): seq<nat>
    requires i < |s| && j < |s|
  {
    s[i := s[j]][j := s[i]]
  }

  /* ---------- dense branch: a partial Fisher-Yates shuffle ---------- */

  /** The position swapped into place `i`. */
  function Target(i: nat, k: nat, draw: nat): (j: nat)
    requires i < k
    ensures i <= j < k
  {
    i + Rem(draw, k - i)
  }

  /** Steps `i..d` of the shuffle; the selection is the first `d` entries. */
  ghost function Shuffled(perm: seq<nat>, i: nat, d: nat, tape: Tape, p: nat): (r: seq<nat>)
    requires i <= d <= |perm| && Distinct(perm) && AllBelow(perm, |perm|)
    ensures |r| == d && Distinct(r) && AllBelow(r, |perm|)
    decreases d - i
  {
    if i == d then perm[..d]
    else
      var j := Target(i, |perm|, tape(p));
      Shuffled(Swap(perm, i, j), i + 1, d, tape, p + 1)
  }

  /** The state of the in-place shuffle after `i` steps: the scratch prefix is what is left to shuffle,
      and `out` the part already fixed. */
  ghost predicate MidShuffle(scratch: seq<nat>, out: seq<nat>, k: nat, i: nat, d: nat, tape: Tape, p: nat, goal: seq<nat>) {
    && i <= d <= k <= |scratch| && out == scratch[..i]
    && Distinct(scratch[..k]) && AllBelow(scratch[..k], k)
    && Shuffled(scratch[..k], i, d, tape, p) == goal
  }

  lemma ShuffleStep(s: seq<nat>, out: seq<nat>, k: nat, i: nat, d: nat, tape: Tape, p: nat, goal: seq<nat>, j: nat, t: seq<nat>)
    requires i < d && MidShuffle(s, out, k, i, d, tape, p, goal)
    requires j == Target(i, k, tape(p)) && t == Swap(s, i, j)
    ensures MidShuffle(t, out + [t[i]], k, i + 1, d, tape, p + 1, goal)
  {
    assert t[..k] == Swap(s[..k], i, j);
    assert t[..i + 1] == s[..i] + [t[i]];
  }

  lemma ShuffleStart(s: seq<nat>, k: nat, d: nat, tape: Tape, p: nat)
    requires d <= k <= |s| && s[..k] == Identity(k)
    ensures MidShuffle(s, [], k, 0, d, tape, p, Shuffled(Identity(k), 0, d, tape, p))
  {
  }

  lemma ShuffleDone(s: seq<nat>, out: seq<nat>, k: nat, d: nat, tape: Tape, p: nat, goal: seq<nat>)
    requires MidShuffle(s, out, k, d, d, tape, p, goal)
    ensures out == goal
  {
  }

  /* ---------- sparse branch: rejection sampling ---------- */

  /** Some index below `k` is not yet taken. */
  lemma FreeExists(out: seq<nat>, k: nat)
    requires |out| < k
    ensures exists v :: 0 <= v < k && v !in out
  {
    MembersSize(out);
    if Below(k) <= Members(out) {
      SubsetSize(Below(k), Members(out));
    }
    var v :| v in Below(k) && v !in Members(out);
    assert 0 <= v < k && v !in out;
  }

  /** The least index from `v` on that is not yet taken. */
  ghost function FreeFrom(out: seq<nat>, k: nat, v: nat): (r: nat)
    requires exists u :: v <= u < k && u !in out
    ensures v <= r < k && r !in out
    decreases k - v
  {
    if v !in out then v else FreeFrom(out, k, v + 1)
  }

  ghost function FirstFree(out: seq<nat>, k: nat): (r: nat)
    requires |out| < k
    ensures r < k && r !in out
  {
    FreeExists(out, k);
    FreeFrom(out, k, 0)
  }

  /** Draws left before the first free index comes up by itself. */
  ghost function Patience(out: seq<nat>, k: nat, tape: Tape, p: nat): nat
    requires k < MODULUS
  {
    if |out| < k then Countdown(tape, p, FirstFree(out, k), MODULUS) else 0
  }

  /** Drawing a taken index brings the generator strictly closer to drawing the first free one:
      the rejection loop cannot run for ever. */
  lemma RejectionProgress(out: seq<nat>, k: nat, tape: Tape, p: nat)
    requires |out| < k < MODULUS && Covers(tape) && Rem(tape(p), k) in out
    ensures Patience(out, k, tape, p + 1) < Patience(out, k, tape, p)
  {
    var v := FirstFree(out, k);
    TakenIsNot(out, k, tape(p), v);
    CountdownStep(tape, p, v);
  }

  lemma TakenIsNot(out: seq<nat>, k: nat, x: nat, v: nat)
    requires v < k && Rem(x, k) in out && v !in out
    ensures x != v
  {
    assert Rem(v, k) == v;
  }

  /** Draws until `d` distinct indices are collected. */
  ghost function Rejected(out: seq<nat>, k: nat, d: nat, tape: Tape, p: nat): (r: seq<nat>)
    requires |out| <= d <= k < MODULUS && Distinct(out) && AllBelow(out, k) && Covers(tape)
    ensures |r| == d && Distinct(r) && AllBelow(r, k)
    decreases d - |out|, Patience(out, k, tape, p)
  {
    if |out| == d then out
    else
      var v := Rem(tape(p), k);
      if v in out then
        RejectionProgress(out, k, tape, p);
        Rejected(out, k, d, tape, p + 1)
      else
        Rejected(out + [v], k, d, tape, p + 1)
  }

  /** The state of the rejection loop: `out` collected so far, outputs consumed up to `p`. */
  ghost predicate MidRejection(out: seq<nat>, k: nat, d: nat, tape: Tape, p: nat, goal: seq<nat>) {
    && |out| <= d <= k < MODULUS && Covers(tape)
    && Distinct(out) && AllBelow(out, k)
    && Rejected(out, k, d, tape, p) == goal
  }

  lemma RejectionStep(out: seq<nat>, k: nat, d: nat, tape: Tape, p: nat, goal: seq<nat>, v: nat)
    requires |out| < d && MidRejection(out, k, d, tape, p, goal) && k > 0 && v == Rem(tape(p), k)
    ensures MidRejection(if v in out then out else out + [v], k, d, tape, p + 1, goal)
    ensures v in out ==> Patience(out, k, tape, p + 1) < Patience(out, k, tape, p)
  {
    if v in out { RejectionProgress(out, k, tape, p); }
  }

  /** What `select_blocks` selects: `d` distinct indices below `k`, a function of the coming outputs only. */
  ghost function Selected(k: nat, d: nat, tape: Tape, p: nat): (r: seq<nat>)
    requires d <= k < MODULUS && (d <= k / 8 ==> Covers(tape))
    ensures |r| == d && Distinct(r) && AllBelow(r, k)
  {
    if d > k / 8 then Shuffled(Identity(k), 0, d, tape, p) else Rejected([], k, d, tape, p)
  }

  /* ---------- which blocks that is: dense branch ---------- */

  /** Draw number `i`, reduced to the `k - i` places that are left. */
  function Choice(k: nat, tape: Tape, p: nat, i: nat): (c: nat)
    requires i < k
    ensures c < k - i
  {
    tape(p + i) % (k - i)
  }

  /** One step of the shuffle. */
  lemma ShuffleOne(perm: seq<nat>, i: nat, d: nat, tape: Tape, p: nat)
    requires i < d <= |perm| && Distinct(perm) && AllBelow(perm, |perm|)
    ensures var s := Swap(perm, i, i + Choice(|perm|, tape, p, i));
            && |s| == |perm| && Distinct(s) && AllBelow(s, |s|)
            && Shuffled(perm, i, d, tape, p + i) == Shuffled(s, i + 1, d, tape, p + i + 1)
  {
    RemIsMod(tape(p + i), |perm| - i);
  }

  /** A shuffle leaves the entries before `i` alone and fills place `i` by the chosen one. */
  lemma {:induction false} ShuffleKeeps(perm: seq<nat>, i: nat, d: nat, tape: Tape, p: nat)
    requires i <= d <= |perm| && Distinct(perm) && AllBelow(perm, |perm|)
    ensures Shuffled(perm, i, d, tape, p + i)[..i] == perm[..i]
    ensures i < d ==> Shuffled(perm, i, d, tape, p + i)[i] == perm[i + Choice(|perm|, tape, p, i)]
    decreases d - i
  {
    hide Choice, Distinct, AllBelow, Shuffled;
    if i < d {
      ShuffleOne(perm, i, d, tape, p);
      var s := Swap(perm, i, i + Choice(|perm|, tape, p, i));
      ShuffleKeeps(s, i + 1, d, tape, p);
      var r := Shuffled(s, i + 1, d, tape, p + i + 1);
      assert s[..i + 1] == perm[..i] + [s[i]];
      assert r[..i] == r[..i + 1][..i];
      assert r[i] == r[..i + 1][i];
    } else {
      NothingToShuffle(perm, d, tape, p + i);
    }
  }

  lemma NothingToShuffle(perm: seq<nat>, d: nat, tape: Tape, p: nat)
    requires d <= |perm| && Distinct(perm) && AllBelow(perm, |perm|)
    ensures Shuffled(perm, d, d, tape, p) == perm[..d]
  {
  }

  ghost predicate SameChoice(k: nat, tape: Tape, p: nat, tape': Tape, p': nat, i: nat)
    requires i < k
  {
    tape(p + i) % (k - i) == tape'(p' + i) % (k - i)
  }

  lemma SameChoices(k: nat, tape: Tape, p: nat, tape': Tape, p': nat, i: nat)
    requires i < k
    ensures SameChoice(k, tape, p, tape', p', i) <==> Choice(k, tape, p, i) == Choice(k, tape', p', i)
  {
  }

  /** Two shuffles agree exactly when all their choices do. */
  lemma {:induction false} ShufflesAgree(perm: seq<nat>, i: nat, d: nat, tape: Tape, p: nat, tape': Tape, p': nat)
    requires i <= d <= |perm| && Distinct(perm) && AllBelow(perm, |perm|)
    ensures Shuffled(perm, i, d, tape, p + i) == Shuffled(perm, i, d, tape', p' + i)
            <==> forall j :: i <= j < d ==> SameChoice(|perm|, tape, p, tape', p', j)
    decreases d - i
  {
    hide Choice, SameChoice, AllBelow, Shuffled, Swap, Distinct;
    if i < d {
      ShuffleOne(perm, i, d, tape, p);
      ShuffleOne(perm, i, d, tape', p');
      SameChoices(|perm|, tape, p, tape', p', i);
      if SameChoice(|perm|, tape, p, tape', p', i) {
        ShufflesAgree(Swap(perm, i, i + Choice(|perm|, tape, p, i)), i + 1, d, tape, p, tape', p');
      } else {
        ShuffleKeeps(perm, i, d, tape, p);
        ShuffleKeeps(perm, i, d, tape', p');
        DifferentPlaces(perm, i + Choice(|perm|, tape, p, i), i + Choice(|perm|, tape', p', i));
      }
    } else {
      NothingToShuffle(perm, d, tape, p + i);
      NothingToShuffle(perm, d, tape', p' + i);
    }
  }

  lemma DifferentPlaces(perm: seq<nat>, i: nat, j: nat)
    requires Distinct(perm) && i < |perm| && j < |perm| && i != j
    ensures perm[i] != perm[j]
  {
  }

  /** In the dense branch two series of draws select the same sequence exactly when they agree, draw by draw, modulo
      the number of places left. */
  lemma DenseSameExactlyWhen(k: nat, d: nat, tape: Tape, p: nat, tape': Tape, p': nat)
    requires k / 8 < d <= k < MODULUS
    ensures Selected(k, d, tape, p) == Selected(k, d, tape', p')
            <==> forall i :: 0 <= i < d ==> SameChoice(k, tape, p, tape', p', i)
  {
    ShufflesAgree(Identity(k), 0, d, tape, p, tape', p');
  }

  /** And every sequence of `d` different blocks is selected by some draws. */
  lemma DenseReachesAll(k: nat, d: nat, p: nat, goal: seq<nat>) returns (tape: Tape)
    requires k / 8 < d <= k < MODULUS
    requires |goal| == d && Distinct(goal) && AllBelow(goal, k)
    ensures Selected(k, d, tape, p) == goal
  {
    tape := ShuffleReaches(Identity(k), 0, d, p, goal);
  }

  lemma {:induction false} ShuffleReaches(perm: seq<nat>, i: nat, d: nat, p: nat, goal: seq<nat>) returns (tape: Tape)
    requires i <= d <= |perm| < MODULUS && Distinct(perm) && AllBelow(perm, |perm|)
    requires |goal| == d && Distinct(goal) && AllBelow(goal, |perm|) && goal[..i] == perm[..i]
    ensures Shuffled(perm, i, d, tape, p + i) == goal
    decreases d - i
  {
    hide AllBelow, Shuffled, Distinct, SameChoice, Choice;
    tape := _ => 0;
    if i < d {
      var n := |perm|;
      var j := Place(perm, goal, i);
      var s := Swap(perm, i, j);
      assert s[..i + 1] == perm[..i] + [goal[i]] == goal[..i + 1];
      SwapKeeps(perm, i, j);
      var rest := ShuffleReaches(s, i + 1, d, p, goal);
      tape := Prepended(rest, p + i, j - i);
      ChoiceOf(n, tape, p, i, j - i);
      ShuffleOne(perm, i, d, tape, p);
      forall m | i + 1 <= m < d ensures SameChoice(n, tape, p, rest, p, m) {
        SameDraw(n, tape, rest, p, m);
      }
      ShufflesAgree(s, i + 1, d, tape, p, rest, p);
    } else {
      NothingToShuffle(perm, d, tape, p + i);
    }
  }

  lemma SwapKeeps(perm: seq<nat>, i: nat, j: nat)
    requires i < |perm| && j < |perm| && Distinct(perm) && AllBelow(perm, |perm|)
    ensures Distinct(Swap(perm, i, j)) && AllBelow(Swap(perm, i, j), |perm|)
  {
  }

  /** `tape` with another value at position `q`. */
  function Prepended(tape: Tape, q: nat, v: u32): Tape {
    m => if m == q then v else tape(m)
  }

  lemma ChoiceOf(k: nat, tape: Tape, p: nat, i: nat, c: nat)
    requires i < k && c < k - i && tape(p + i) == c
    ensures Choice(k, tape, p, i) == c
  {
    DivModUnique(c, k - i, 0, c);
  }

  lemma SameDraw(k: nat, tape: Tape, tape': Tape, p: nat, i: nat)
    requires i < k && tape(p + i) == tape'(p + i)
    ensures SameChoice(k, tape, p, tape', p, i)
  {
  }

  /** Every block below `|perm|` has its place in a permutation; one not yet selected lies from `i` on. */
  lemma Place(perm: seq<nat>, goal: seq<nat>, i: nat) returns (j: nat)
    requires i < |goal| <= |perm| && Distinct(perm) && AllBelow(perm, |perm|)
    requires Distinct(goal) && AllBelow(goal, |perm|) && goal[..i] == perm[..i]
    ensures i <= j < |perm| && perm[j] == goal[i]
  {
    MembersSize(perm);
    assert Members(perm) <= Below(|perm|);
    SubsetSize(Members(perm), Below(|perm|));
    assert goal[i] in Members(perm);
    j :| 0 <= j < |perm| && perm[j] == goal[i];
    assert forall m :: 0 <= m < i ==> goal[m] == goal[..i][m] == perm[m];
  }

  /** Where the card that lies at `x` before step `m` of the shuffle lay at the start: each earlier step may have
      brought it there from the place that step filled. */
  function Origin(k: nat, tape: Tape, p: nat, m: nat, x: nat): nat
    requires m <= k
  {
    if m == 0 then x
    else Origin(k, tape, p, m - 1, if x == m - 1 + tape(p + m - 1) % (k - m + 1) then m - 1 else x)
  }

  /** Entry `i` of a dense selection is the block whose card lies at the place drawn at step `i`. */
  lemma DenseEntry(k: nat, d: nat, tape: Tape, p: nat, i: nat)
    requires k / 8 < d <= k < MODULUS && i < d
    ensures 0 <= tape(p + i) % (k - i) < k - i
    ensures Selected(k, d, tape, p)[i] == Origin(k, tape, p, i, i + tape(p + i) % (k - i))
  {
    hide Choice, Shuffled, Distinct, AllBelow, Dealt, Identity;
    ChoiceIs(k, tape, p, i);
    IdentityDealt(k, tape, p);
    EntryFrom(Identity(k), 0, d, tape, p, i);
    SelectedDense(k, d, tape, p);
  }

  lemma SelectedDense(k: nat, d: nat, tape: Tape, p: nat)
    requires k / 8 < d <= k < MODULUS
    ensures |Identity(k)| == k && Distinct(Identity(k)) && AllBelow(Identity(k), k)
    ensures Selected(k, d, tape, p) == Shuffled(Identity(k), 0, d, tape, p)
  {
  }

  lemma ChoiceIs(k: nat, tape: Tape, p: nat, i: nat)
    requires i < k
    ensures 0 <= tape(p + i) % (k - i) < k - i
    ensures Choice(k, tape, p, i) == tape(p + i) % (k - i)
  {
  }

  lemma IdentityDealt(k: nat, tape: Tape, p: nat)
    ensures |Identity(k)| == k && Distinct(Identity(k)) && AllBelow(Identity(k), k) && Dealt(Identity(k), tape, p, 0)
  {
  }

  /** The cards as they lie before step `m`. */
  ghost predicate Dealt(perm: seq<nat>, tape: Tape, p: nat, m: nat)
    requires m <= |perm|
  {
    forall x :: m <= x < |perm| ==> perm[x] == Origin(|perm|, tape, p, m, x)
  }

  lemma DealtNext(perm: seq<nat>, tape: Tape, p: nat, m: nat)
    requires m < |perm| && Dealt(perm, tape, p, m)
    ensures Dealt(Swap(perm, m, m + Choice(|perm|, tape, p, m)), tape, p, m + 1)
  {
    var n, j := |perm|, m + Choice(|perm|, tape, p, m);
    forall x | m + 1 <= x < n ensures Swap(perm, m, j)[x] == Origin(n, tape, p, m + 1, x) {
      OriginStep(n, tape, p, m, x);
    }
  }

  lemma OriginStep(k: nat, tape: Tape, p: nat, m: nat, x: nat)
    requires m < k
    ensures Origin(k, tape, p, m + 1, x) == Origin(k, tape, p, m, if x == m + Choice(k, tape, p, m) then m else x)
  {
  }

  lemma {:induction false} EntryFrom(perm: seq<nat>, m: nat, d: nat, tape: Tape, p: nat, i: nat)
    requires m <= i < d <= |perm| && Distinct(perm) && AllBelow(perm, |perm|) && Dealt(perm, tape, p, m)
    ensures Shuffled(perm, m, d, tape, p + m)[i] == Origin(|perm|, tape, p, i, i + Choice(|perm|, tape, p, i))
    decreases d - m
  {
    hide AllBelow, Shuffled, Distinct, Choice, Swap;
    if m < i {
      ShuffleOne(perm, m, d, tape, p);
      DealtNext(perm, tape, p, m);
      EntryFrom(Swap(perm, m, m + Choice(|perm|, tape, p, m)), m + 1, d, tape, p, i);
    } else {
      ShuffleKeeps(perm, m, d, tape, p);
    }
  }

  /* ---------- which blocks that is: sparse branch ---------- */

  /** Entry `i` is drawn at position `q`, and everything drawn before is among the entries before it. */
  ghost predicate FirstSeen(r: seq<nat>, k: nat, tape: Tape, p: nat, i: nat, q: nat)
    requires k > 0 && i < |r|
  {
    p <= q && tape(q) % k == r[i] && forall j {:trigger tape(j)} :: p <= j < q ==> tape(j) % k in r[..i]
  }

  ghost predicate InOrder(r: seq<nat>, k: nat, tape: Tape, p: nat, i: nat)
    requires k > 0 && i < |r|
  {
    exists q :: FirstSeen(r, k, tape, p, i, q)
  }

  /** The sparse branch selects the different values of `draw % k` in the order of their first occurrence, and `r` can
      be nothing else. */
  lemma SparseExactlyWhen(k: nat, d: nat, tape: Tape, p: nat, r: seq<nat>)
    requires 0 < d <= k / 8 && k < MODULUS && Covers(tape) && |r| == d && Distinct(r)
    ensures r == Selected(k, d, tape, p) <==> forall i :: 0 <= i < d ==> InOrder(r, k, tape, p, i)
  {
    var s := Rejected([], k, d, tape, p);
    RejectedInOrder([], k, d, tape, p);
    if forall i :: 0 <= i < d ==> InOrder(r, k, tape, p, i) {
      InOrderRejected([], k, d, tape, p, r);
    }
  }

  lemma {:induction false} RejectedInOrder(out: seq<nat>, k: nat, d: nat, tape: Tape, p: nat)
    requires |out| <= d <= k < MODULUS && 0 < k && Distinct(out) && AllBelow(out, k) && Covers(tape)
    ensures var r := Rejected(out, k, d, tape, p);
            out <= r && forall i :: |out| <= i < d ==> InOrder(r, k, tape, p, i)
    decreases d - |out|, Patience(out, k, tape, p)
  {
    hide Covers, Patience;
    if |out| < d {
      var r, v := Rejected(out, k, d, tape, p), Rem(tape(p), k);
      RemIsMod(tape(p), k);
      if v in out {
        RejectionProgress(out, k, tape, p);
        RejectedInOrder(out, k, d, tape, p + 1);
      } else {
        RejectedInOrder(out + [v], k, d, tape, p + 1);
        assert FirstSeen(r, k, tape, p, |out|, p);
      }
      forall i | |out| <= i < d && (v in out || i > |out|) ensures InOrder(r, k, tape, p, i) {
        OneEarlier(r, k, tape, p, i, v);
      }
    }
  }

  /** One more draw in front whose value is already among the entries. */
  lemma OneEarlier(r: seq<nat>, k: nat, tape: Tape, p: nat, i: nat, v: nat)
    requires 0 < k && i < |r| && InOrder(r, k, tape, p + 1, i) && v == tape(p) % k && v in r[..i]
    ensures InOrder(r, k, tape, p, i)
  {
    var q :| FirstSeen(r, k, tape, p + 1, i, q);
    assert FirstSeen(r, k, tape, p, i, q);
  }

  lemma OneLater(r: seq<nat>, k: nat, tape: Tape, p: nat, i: nat)
    requires 0 < k && i < |r| && InOrder(r, k, tape, p, i) && tape(p) % k != r[i]
    ensures InOrder(r, k, tape, p + 1, i) && tape(p) % k in r[..i]
  {
    var q :| FirstSeen(r, k, tape, p, i, q);
    assert FirstSeen(r, k, tape, p + 1, i, q);
  }

  lemma {:induction false} InOrderRejected(out: seq<nat>, k: nat, d: nat, tape: Tape, p: nat, r: seq<nat>)
    requires |out| <= d <= k < MODULUS && 0 < k && Distinct(out) && AllBelow(out, k) && Covers(tape)
    requires |r| == d && Distinct(r) && out <= r && forall i :: |out| <= i < d ==> InOrder(r, k, tape, p, i)
    ensures r == Rejected(out, k, d, tape, p)
    decreases d - |out|, Patience(out, k, tape, p)
  {
    hide Covers, Patience;
    if |out| < d {
      var v := Rem(tape(p), k);
      RemIsMod(tape(p), k);
      if v !in out && r[|out|] != v {
        OneLater(r, k, tape, p, |out|);
      }
      var next := p + 1;
      forall i | |out| <= i < d && (v in out || i > |out|) ensures InOrder(r, k, tape, next, i) {
        OneLater(r, k, tape, p, i);
      }
      if v in out {
        RejectionProgress(out, k, tape, p);
        InOrderRejected(out, k, d, tape, p + 1, r);
      } else {
        InOrderRejected(out + [v], k, d, tape, p + 1, r);
      }
    }
  }

  /** In both branches the first block is the first draw modulo `k`. */
  lemma FirstBlock(k: nat, d: nat, tape: Tape, p: nat)
    requires 0 < d <= k < MODULUS && Covers(tape)
    ensures Selected(k, d, tape, p)[0] == tape(p) % k
  {
    if d > k / 8 {
      DenseEntry(k, d, tape, p, 0);
      assert Origin(k, tape, p, 0, tape(p) % k) == tape(p) % k;
    } else {
      SparseExactlyWhen(k, d, tape, p, Selected(k, d, tape, p));
      var r := Selected(k, d, tape, p);
      assert InOrder(r, k, tape, p, 0);
    }
  }

  /* ---------- the imperative selection ---------- */

  /** The dense branch: a shuffle of the identity in the first `k` entries of the scratch buffer. */
  method SelectDense(scratch0: seq<nat>, k: nat, d: nat, rnd: SplitMix32, ghost tape: Tape, ghost p0: nat)
    returns (out: seq<nat>, scratch: seq<nat>)
    requires d <= k < MODULUS && rnd.Follows(tape, p0)
    modifies rnd
    ensures out == Shuffled(Identity(k), 0, d, tape, p0)
  {
    out := [];
    scratch := Fill(scratch0, k);
    ghost var p, goal := p0, Shuffled(Identity(k), 0, d, tape, p0);
    ShuffleStart(scratch, k, d, tape, p);
    hide Shuffled, Distinct, AllBelow;
    for i := 0 to d
      invariant MidShuffle(scratch, out, k, i, d, tape, p, goal) && rnd.Follows(tape, p)
    {
      var j := NextIndex(i, k, rnd, tape, p);
      var swapped := Swap(scratch, i, j);
      ShuffleStep(scratch, out, k, i, d, tape, p, goal, j, swapped);
      scratch, out, p := swapped, out + [swapped[i]], p + 1;
    }
    ShuffleDone(scratch, out, k, d, tape, p, goal);
  }

  method NextIndex(i: nat, k: nat, rnd: SplitMix32, ghost tape: Tape, ghost p: nat) returns (j: nat)
    requires i < k && rnd.Follows(tape, p)
    modifies rnd
    ensures rnd.Follows(tape, p + 1) && j == Target(i, k, tape(p)) < k
  {
    var v := rnd.NextBounded(k - i, tape, p);
    j := i + v;
  }

  /** Grows the scratch buffer to `k` entries if needed and resets every entry to its index. */
  method Fill(scratch0: seq<nat>, k: nat) returns (scratch: seq<nat>)
    ensures |scratch| >= k && scratch[..k] == Identity(k)
  {
    scratch := scratch0;
    if |scratch| < k {
      scratch := scratch + seq(k - |scratch|, _ => 0);
    }
    var n := |scratch|;
    for i := 0 to n
      invariant |scratch| == n
      invariant forall j :: 0 <= j < i ==> scratch[j] == j
    {
      scratch := scratch[i := i];
    }
  }

  /** The sparse branch.  Its loop has no counter; it ends by `RejectionProgress`. */
  method SelectSparse(k: nat, d: nat, rnd: SplitMix32, ghost tape: Tape, ghost p0: nat) returns (out: seq<nat>)
    requires d <= k < MODULUS && Covers(tape) && rnd.Follows(tape, p0)
    modifies rnd
    ensures out == Rejected([], k, d, tape, p0)
  {
    out := [];
    ghost var p, goal := p0, Rejected([], k, d, tape, p0);
    while |out| < d
      invariant MidRejection(out, k, d, tape, p, goal) && rnd.Follows(tape, p)
      decreases d - |out|, Patience(out, k, tape, p)
    {
      var v := rnd.NextBounded(k, tape, p);
      RejectionStep(out, k, d, tape, p, goal, v);
      p := p + 1;
      var taken := Scan(out, v);
      if taken {
        continue;
      }
      out := out + [v];
    }
  }

  /** The inner loop over the indices already chosen. */
  method Scan(out: seq<nat>, v: nat) returns (taken: bool)
    ensures taken <==> v in out
  {
    for i := 0 to |out|
      invariant v !in out[..i]
    {
      if out[i] == v {
        return true;
      }
    }
    taken := false;
  }

  /** Both branches return exactly `d` distinct indices below `k`, whatever stale `scratch` held. */
  method SelectBlocks(scratch0: seq<nat>, k: nat, d: nat, rnd: SplitMix32, ghost tape: Tape, ghost p: nat)
    returns (out: seq<nat>, scratch: seq<nat>)
    requires d <= k < MODULUS && Covers(tape) && rnd.Follows(tape, p)
    modifies rnd
    ensures out == Selected(k, d, tape, p)
  {
    if d > k / 8 {
      out, scratch := SelectDense(scratch0, k, d, rnd, tape, p);
    } else {
      scratch := scratch0;
      out := SelectSparse(k, d, rnd, tape, p);
    }
  }

  /* ---------- from a frame's seed to its subset ---------- */

  /** A 32-bit draw scaled into [0, 1). */
  function Unit(t: u32): (u: real)
    ensures 0.0 <= u < 1.0
  {
    t as real / 4294967296.0
  }

  /** The indices of a repair frame: degree from the first draw, subset from the following ones. */
  ghost function IndicesFrom(cdf: seq<real>, session: u32, seqno: u32): (r: seq<nat>)
    requires |cdf| < MODULUS
    ensures |r| <= |cdf| && (|cdf| > 0 ==> |r| > 0) && Distinct(r) && AllBelow(r, |cdf|)
  {
    TapeCovers(FrameSeed(session, seqno));
    IndicesOnTape(cdf, TapeOf(FrameSeed(session, seqno)))
  }

  ghost function IndicesOnTape(cdf: seq<real>, tape: Tape): (r: seq<nat>)
    requires |cdf| < MODULUS && Covers(tape)
    ensures |r| <= |cdf| && (|cdf| > 0 ==> |r| > 0) && Distinct(r) && AllBelow(r, |cdf|)
  {
    Selected(|cdf|, Min(Degree(cdf, Unit(tape(0))), |cdf|), tape, 1)
  }

  /** The first draw of a frame fixes its degree, the least one whose cumulative mass reaches it; the following draws
      select its blocks, and the second one modulo the number of blocks is the first of them. */
  lemma SubsetOnTape(cdf: seq<real>, tape: Tape)
    requires IsCdf(cdf) && |cdf| < MODULUS && Covers(tape)
    ensures var r, u := IndicesOnTape(cdf, tape), tape(0) as real / 4294967296.0;
            && cdf[|r| - 1] >= u && (forall j :: 0 <= j < |r| - 1 ==> cdf[j] < u)
            && r == Selected(|cdf|, |r|, tape, 1) && r[0] == tape(1) % |cdf|
  {
    hide Covers, Lower;
    var u := Unit(tape(0));
    FirstBlock(|cdf|, Degree(cdf, u), tape, 1);
    DegreeIsLeast(cdf, u, Degree(cdf, u));
  }

  /** The draws of frame `seqno` are those of its seed. */
  lemma FrameSubset(cdf: seq<real>, session: u32, seqno: u32)
    requires IsCdf(cdf) && |cdf| < MODULUS
    ensures Covers(TapeOf(FrameSeed(session, seqno)))
    ensures IndicesFrom(cdf, session, seqno) == IndicesOnTape(cdf, TapeOf(FrameSeed(session, seqno)))
    ensures IndicesFrom(cdf, session, seqno)[0] == Draw(FrameSeed(session, seqno), 1) % |cdf|
  {
    hide Covers, Draw, FrameSeed, IndicesOnTape;
    TapeCovers(FrameSeed(session, seqno));
    SubsetOnTape(cdf, TapeOf(FrameSeed(session, seqno)));
  }

  /** The public reference form.  On a table that is not ascending it still returns distinct indices
      below `k`; the inconsistent calls return no index at all. */
  method FrameIndices(k: nat, cdf: seq<real>, session: u32, seqno: u32) returns (out: seq<nat>)
    requires k < MODULUS
    ensures Distinct(out) && AllBelow(out, k)
    ensures k == 0 || |cdf| != k ==> out == []
    ensures k > 0 && |cdf| == k && Ascending(cdf) ==> out == IndicesFrom(cdf, session, seqno)
  {
    if k == 0 || |cdf| != k {
      return [];
    }
    var seed := FrameSeed(session, seqno);
    TapeCovers(seed);
    var rnd := new SplitMix32(seed);
    out := DrawReference(k, cdf, rnd, TapeOf(seed));
  }

  method DrawReference(k: nat, cdf: seq<real>, rnd: SplitMix32, ghost tape: Tape) returns (out: seq<nat>)
    requires |cdf| == k < MODULUS && Covers(tape) && rnd.Follows(tape, 0)
    modifies rnd
    ensures Distinct(out) && AllBelow(out, k)
    ensures Ascending(cdf) ==> out == IndicesOnTape(cdf, tape)
  {
    var t := rnd.NextU32(tape, 0);
    var d := DegreeBinary(cdf, Unit(t));
    var scratch;
    out, scratch := SelectBlocks([], k, Min(d, k), rnd, tape, 1);
  }

  /** The form encoder and decoder use.  It does not depend on the buffers left over from earlier frames,
      so both sides derive the same subset whatever their history, and the subset is the reference one. */
  method FrameIndicesInto(scratch0: seq<nat>, dc: DegreeCdf, session: u32, seqno: u32)
    returns (out: seq<nat>, scratch: seq<nat>)
    requires dc.Valid() && |dc.cdf| < MODULUS
    ensures out == IndicesFrom(dc.cdf, session, seqno)
  {
    var seed := FrameSeed(session, seqno);
    TapeCovers(seed);
    var rnd := new SplitMix32(seed);
    out, scratch := DrawIndices(scratch0, dc, rnd, TapeOf(seed));
  }

  method DrawIndices(scratch0: seq<nat>, dc: DegreeCdf, rnd: SplitMix32, ghost tape: Tape)
    returns (out: seq<nat>, scratch: seq<nat>)
    requires dc.Valid() && |dc.cdf| < MODULUS && Covers(tape) && rnd.Follows(tape, 0)
    modifies rnd
    ensures out == IndicesOnTape(dc.cdf, tape)
  {
    var t := rnd.NextU32(tape, 0);
    var k := |dc.cdf|;
    var d := dc.Sample(Unit(t));
    out, scratch := SelectBlocks(scratch0, k, Min(d, k), rnd, tape, 1);
  }
}
