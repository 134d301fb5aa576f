/** Peeling on index sets alone: which blocks a family of XOR equations
    determines when only degree-one equations may be used. */
module Peeling {
  import opened Sets

  type Family = set<set<nat>>

  ghost predicate Within(fam: Family, k: nat) {
    forall e :: e in fam ==> e <= Below(k)
  }

  /** With the blocks of `s` known, `e` has the single unknown block `b`. */
  ghost predicate Reveals(e: set<nat>, s: set<nat>, b: nat) {
    b in e && b !in s && e - {b} <= s
  }

  /** No equation of the family has exactly one block outside `s`. */
  ghost predicate Closed(fam: Family, s: set<nat>) {
    forall e, b :: e in fam ==> !Reveals(e, s, b)
  }

  /** Reference peeling: while some equation reveals a block, add it, in any order. */
  ghost function PeelFrom(fam: Family, s: set<nat>, k: nat): (r: set<nat>)
    requires Within(fam, k) && s <= Below(k)
    ensures s <= r <= Below(k)
    decreases k - |s|
  {
    if Closed(fam, s) then s
    else
      var e, b :| e in fam && Reveals(e, s, b);
      SubsetSize(s + {b}, Below(k));
      PeelFrom(fam, s + {b}, k)
  }

  ghost function Peel(fam: Family, k: nat): (r: set<nat>)
    requires Within(fam, k)
    ensures r <= Below(k)
  {
    PeelFrom(fam, {}, k)
  }

  lemma {:induction false} PeelFromLeast(fam: Family, s: set<nat>, k: nat, t: set<nat>)
    requires Within(fam, k) && s <= Below(k)
    ensures Closed(fam, PeelFrom(fam, s, k))
    ensures s <= t && Closed(fam, t) ==> PeelFrom(fam, s, k) <= t
    decreases k - |s|
  {
    if !Closed(fam, s) {
      var e, b :| e in fam && Reveals(e, s, b) && PeelFrom(fam, s, k) == PeelFrom(fam, s + {b}, k);
      SubsetSize(s + {b}, Below(k));
      if s <= t && Closed(fam, t) {
        assert !Reveals(e, t, b);
      }
      PeelFromLeast(fam, s + {b}, k, t);
    }
  }

  /** Peeling reaches the least closed set, so the order of its choices is irrelevant. */
  lemma PeelLeast(fam: Family, k: nat, t: set<nat>)
    requires Within(fam, k)
    ensures Closed(fam, Peel(fam, k))
    ensures Closed(fam, t) ==> Peel(fam, k) <= t
  {
    PeelFromLeast(fam, {}, k, t);
  }

  /** A closed set below every closed set is the peeled set. */
  lemma LeastIsPeel(fam: Family, k: nat, s: set<nat>)
    requires Within(fam, k) && Closed(fam, s)
    requires forall t :: Closed(fam, t) ==> s <= t
    ensures s == Peel(fam, k)
  {
    PeelLeast(fam, k, s);
  }

  /** More equations determine no fewer blocks. */
  lemma PeelMonotone(small: Family, large: Family, k: nat)
    requires small <= large && Within(large, k)
    ensures Within(small, k) && Peel(small, k) <= Peel(large, k)
  {
    var t := Peel(large, k);
    PeelLeast(large, k, t);
    PeelLeast(small, k, t);
  }

  /** An equation whose blocks are all determined already adds nothing. */
  lemma PeelRedundant(fam: Family, e: set<nat>, k: nat)
    requires Within(fam + {e}, k) && Within(fam, k) && e <= Peel(fam, k)
    ensures Peel(fam + {e}, k) == Peel(fam, k)
  {
    var s := Peel(fam, k);
    PeelLeast(fam, k, s);
    assert Closed(fam + {e}, s);
    PeelLeast(fam + {e}, k, s);
    PeelMonotone(fam, fam + {e}, k);
  }

  /** Every block costs an equation of its own: `n` equations determine at most `n` blocks. */
  lemma {:induction false} PeelFromCount(fam: Family, s: set<nat>, k: nat, spent: Family)
    requires Within(fam, k) && s <= Below(k)
    requires spent <= fam && |s| <= |spent| && forall e :: e in spent ==> e <= s
    ensures |PeelFrom(fam, s, k)| <= |fam|
    decreases k - |s|
  {
    if Closed(fam, s) {
      SubsetSize(spent, fam);
    } else {
      var e, b :| e in fam && Reveals(e, s, b) && PeelFrom(fam, s, k) == PeelFrom(fam, s + {b}, k);
      SubsetSize(s + {b}, Below(k));
      assert e !in spent;
      PeelFromCount(fam, s + {b}, k, spent + {e});
    }
  }

  lemma PeelCount(fam: Family, k: nat)
    requires Within(fam, k)
    ensures |Peel(fam, k)| <= |fam|
  {
    PeelFromCount(fam, {}, k, {});
  }
}
