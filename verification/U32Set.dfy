/** The open-addressing set of sequence numbers (src/set.rs). */
module U32Sets {
  import opened Modular
  import opened Probing
  import opened Sets
  import Bits

  /** `n` keys bring a table of `cap` slots to the 0.7 load bound. */
  predicate AtLoad(n: nat, cap: nat) {
    n * 10 >= cap * 7
  }

  /** The least power of two that is at least `n`. */
  function NextPowerOfTwo(n: nat, p: nat): (r: nat)
    requires PowerOfTwo(p)
    ensures PowerOfTwo(r) && p <= r && n <= r && (r == p || r < 2 * n)
    decreases n - p
  {
    if n <= p then p else
      PowerDouble(p);
      NextPowerOfTwo(n, p * 2)
  }

  class U32Set {
    var keys: seq<u32>
    var occ: seq<bv64>
    var mask: nat
    var len: nat
    /** Where each key sits; `slot.Keys` is the set this object represents. */
    ghost var slot: map<u32, nat>
    /** The occupancy bits, unpacked. */
    ghost var used: seq<bool>

    ghost predicate Valid()
      reads this
    {
      && len == |slot|
      && if mask == 0 then
           keys == [] && occ == [] && slot == map[] && used == []
         else
           && |keys| == mask + 1 >= 8
           && PowerOfTwo(|keys|)
           && |occ| == |keys| / 64 + 1
           && !AtLoad(len, |keys|)
           && used == Bits.Flags(occ, |keys|)
           && Table(keys, used, slot)
    }

    ghost function Contents(): set<u32>
      reads this
    {
      slot.Keys
    }

    /** The next insertion has to enlarge the table first. */
    predicate Crowded()
      reads this
    {
      mask == 0 || AtLoad(len + 1, |keys|)
    }

    constructor ()
      ensures Valid() && Contents() == {}
    {
      keys, occ, mask, len, slot, used := [], [], 0, 0, map[], [];
    }

    /** Room for `n` slots, rounded up to the next power of two, and at least 8. */
    constructor WithCapacity(n: nat)
      ensures Valid() && Contents() == {}
      ensures |keys| >= 8 && |keys| >= n && (|keys| > 8 ==> |keys| < 2 * n)
    {
      var cap := NextPowerOfTwo(n, 1);
      if cap < 8 { cap := 8; }
      new;
      assert PowerOfTwo(8);
      Allocate(cap);
    }

    /** An empty table of `cap` slots. */
    method Allocate(cap: nat)
      requires PowerOfTwo(cap) && cap >= 8
      modifies this
      ensures Valid() && slot == map[] && len == 0 && |keys| == cap
    {
      keys := seq(cap, _ => 0);
      occ := seq(cap / 64 + 1, _ => 0);
      mask, len, slot := cap - 1, 0, map[];
      used := Bits.Flags(occ, cap);
      Bits.FlagsZero(occ, cap);
      EmptyTable(keys, used);
    }

    /** A table with slots has a power of two of them, and is crowded by its next key exactly at the load bound. */
    lemma Sized()
      requires Valid() && |keys| > 0
      ensures mask != 0 && PowerOfTwo(|keys|) && (Crowded() <==> AtLoad(|Contents()| + 1, |keys|))
    {
    }

    /** No key is displaced exactly when no two keys agree modulo the size of the table. */
    lemma NoCollisionExactlyWhen()
      requires Valid() && mask != 0
      ensures AllAtHome(slot, |keys|) <==> Incongruent(Contents(), |keys|)
    {
      AtHomeExactlyWhen(keys, used, slot);
    }

    /** Consecutive keys never collide: as long as the keys lie in a window no longer than the table, each sits in its
        home slot, in whatever order they came and however often the table grew. */
    lemma WindowNeedsOneProbe(base: u32, v: u32)
      requires Valid() && InWindow(Contents(), base, |keys|) && v in Contents()
      ensures v in slot && slot[v] == Home(v, |keys|)
    {
      WindowAtHome(keys, used, slot, base);
    }

    /** In particular a run of consecutive keys, without gaps, never collides: the load bound keeps it shorter than the
        table. */
    lemma RunNeverCollides(base: u32)
      requires Valid() && mask != 0 && InWindow(Contents(), base, |Contents()|)
      ensures AllAtHome(slot, |keys|)
    {
      WindowAtHome(keys, used, slot, base);
    }

    /** The probe loop of `contains` and `insert`: walk from home to the key or to the first free slot.
        It ends because the load bound leaves a slot free. */
    method Probe(v: u32) returns (i: nat, found: bool)
      requires Valid() && mask != 0
      ensures i < |keys| && found == used[i]
      ensures found ==> v in slot && slot[v] == i
      ensures !found ==> v !in slot
      ensures forall j :: 0 <= j < |keys| && Before(v, j, i, |keys|) ==> used[j]
    {
      ghost var cap := |keys|;
      ghost var free := FreeSlot(used);
      i := Home(v, mask + 1);
      while true
        invariant i < cap && !Before(v, free, i, cap)
        invariant forall j :: 0 <= j < cap && Before(v, j, i, cap) ==> used[j] && keys[j] != v
        decreases Steps(Home(v, cap), free, cap) - Steps(Home(v, cap), i, cap)
      {
        var taken := Bits.Test(occ, i, cap);
        if !taken {
          AbsentAt(keys, used, slot, v, i);
          return i, false;
        }
        if keys[i] == v {
          return i, true;
        }
        ProbeStep(v, i, free, cap);
        i := Next(i, mask + 1);
      }
    }

    /** Fills the free slot that the probe for an absent key ended at. */
    method Store(v: u32, i: nat)
      requires Valid() && mask != 0 && i < |keys| && v !in slot
      requires !AtLoad(len + 1, |keys|)
      requires !used[i]
      requires forall j :: 0 <= j < |keys| && Before(v, j, i, |keys|) ==> used[j]
      modifies this
      ensures Valid()
      ensures slot == old(slot)[v := i] && |keys| == old(|keys|)
      ensures Contents() == old(Contents()) + {v}
    {
      StoreKeeps(keys, used, slot, v, i);
      occ := Bits.Write(occ, i, true, |keys|);
      keys := keys[i := v];
      len := len + 1;
      slot := slot[v := i];
      used := used[i := true];
    }

    method Contains(v: u32) returns (found: bool)
      requires Valid()
      ensures found <==> v in Contents()
    {
      if mask == 0 {
        return false;
      }
      var i;
      i, found := Probe(v);
    }

    /** Adds `v`; the result says whether it was new.  The table is doubled first exactly when one more key, new or not,
        would fill seven tenths of it. */
    method Insert(v: u32) returns (added: bool)
      requires Valid()
      modifies this
      ensures Valid()
      ensures added <==> v !in old(Contents())
      ensures Contents() == old(Contents()) + {v}
      ensures !old(Crowded()) ==> |keys| == old(|keys|)
      ensures |keys| == if old(|keys|) == 0 then 8
                        else if 10 * (|old(Contents())| + 1) >= 7 * old(|keys|) then 2 * old(|keys|)
                        else old(|keys|)
      decreases if Crowded() then 2 else 0
    {
      ghost var before := Contents();
      if mask == 0 || AtLoad(len + 1, |keys|) {
        Grow();
      }
      assert Contents() == before;
      var i, found := Probe(v);
      if !found {
        Store(v, i);
      } else {
        AddMember(before, v);
      }
      added := !found;
    }

    /** Doubles the table.  The contents are unchanged, and no re-insertion grows it again. */
    method Grow()
      requires Valid()
      modifies this
      ensures Valid() && !Crowded()
      ensures Contents() == old(Contents())
      ensures |keys| == if old(mask) == 0 then 8 else 2 * old(|keys|)
      decreases 1, 1
    {
      hide Table, Bits.Flags, Home;
      var oldKeys, oldOcc, oldMask := keys, occ, mask;
      ghost var oldUsed, oldSlot := used, slot;
      var newCap := if oldMask == 0 then 8 else (oldMask + 1) * 2;
      assert PowerOfTwo(newCap) by {
        PowerDouble(4);
        if oldMask != 0 { PowerDouble(|oldKeys|); }
      }
      hide PowerOfTwo;
      Allocate(newCap);
      if oldMask != 0 {
        Rehash(oldKeys, oldOcc, oldUsed, oldSlot);
      }
      Sized();
    }

    /** Inserts the keys of the old table one slot at a time.  None of these insertions grows the table again. */
    method Rehash(oldKeys: seq<u32>, oldOcc: seq<bv64>, ghost oldUsed: seq<bool>, ghost oldSlot: map<u32, nat>)
      requires Valid() && Contents() == {} && |keys| == 2 * |oldKeys| > 0
      requires Table(oldKeys, oldUsed, oldSlot) && !AtLoad(|oldSlot|, |oldKeys|)
      requires |oldKeys| <= 64 * |oldOcc| && oldUsed == Bits.Flags(oldOcc, |oldKeys|)
      modifies this
      ensures Valid() && Contents() == oldSlot.Keys && |keys| == old(|keys|)
      decreases 1, 0
    {
      hide U32Set.Valid, U32Set.Contents, U32Set.Crowded, Table, Bits.Flags, PowerOfTwo, StoredBelow;
      StoredEnds(oldKeys, oldUsed, oldSlot);
      for i := 0 to |oldKeys|
        invariant Valid() && |keys| == 2 * |oldKeys|
        invariant Contents() == StoredBelow(oldSlot, i)
      {
        StoredNext(oldKeys, oldUsed, oldSlot, i);
        var taken := Bits.Test(oldOcc, i, |oldKeys|);
        if taken {
          Sized();
          var added := Insert(oldKeys[i]);
        }
      }
    }
  }

  /** Keys 0 and 8 collide in a table of 8 slots: one of them needs a second probe. */
  method KeysEightApart() returns (s: U32Set)
    ensures fresh(s) && s.Valid() && s.Contents() == {0, 8} && |s.keys| == 8 && !AllAtHome(s.slot, 8)
  {
    hide U32Set.Valid, U32Set.Contents, U32Set.Crowded, AllAtHome, Incongruent, PowerOfTwo;
    s := new U32Set.WithCapacity(8);
    s.Sized();
    EightSlots(|s.keys|);
    var first := s.Insert(0);
    s.Sized();
    var second := s.Insert(8);
    s.Sized();
    s.NoCollisionExactlyWhen();
    EightApart();
  }

  lemma EightSlots(n: nat)
    requires PowerOfTwo(n) && 8 <= n < 16
    ensures n == 8
  {
    assert PowerOfTwo(n / 2) && PowerOfTwo(n / 2 / 2) && PowerOfTwo(n / 2 / 2 / 2);
  }

  lemma EightApart()
    ensures !Incongruent({0, 8}, 8)
  {
    var v: u32, w: u32 := 0, 8;
    assert v in {0, 8} && w in {0, 8} && v % 8 == w % 8;
  }
}
