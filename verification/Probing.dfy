/** Linear probing on values: the table invariant of src/set.rs and what follows
    from it, with no reference to the heap. */
module Probing {
  import opened Sets
  import opened Modular

  const MULTIPLIER: nat := 0x9e37_79b1
  const INVERSE: nat := 0x0e8b_2f51

  function Hash(v: u32): u32 {
    Wrap(v * MULTIPLIER)
  }

  /** The home slot: `hash(v) & mask`, the mask being one less than a power of two. */
  function Home(v: u32, cap: nat): (r: nat)
    requires cap > 0
    ensures r < cap
  {
    Hash(v) % cap
  }

  /** The slot after `i`, wrapping: `(i + 1) & mask`. */
  function Next(i: nat, cap: nat): (r: nat)
    requires i < cap
    ensures r < cap && r == if i + 1 == cap then 0 else i + 1
  {
    (i + 1) % cap
  }

  /** Steps needed to walk forward from slot `i` to slot `j`. */
  function Steps(i: nat, j: nat, cap: nat): (r: nat)
    requires i < cap && j < cap
    ensures r < cap
  {
    if i <= j then j - i else j + cap - i
  }

  /** The occupied slots. */
  ghost function Occupied(used: seq<bool>): set<nat> {
    set i: nat | i < |used| && used[i]
  }

  /** `slot` says where each stored key sits: every key once, every occupied slot accounted for. */
  ghost predicate Indexed(keys: seq<u32>, used: seq<bool>, slot: map<u32, nat>) {
    && |keys| == |used| > 0
    && (forall v {:trigger slot[v]} :: v in slot ==> slot[v] < |keys| && used[slot[v]] && keys[slot[v]] == v)
    && (forall i {:trigger keys[i]} :: 0 <= i < |keys| && used[i] ==> keys[i] in slot && slot[keys[i]] == i)
    && |slot| == |Occupied(used)|
  }

  /** The walk from home to the slot of `v` crosses occupied slots only. */
  ghost predicate Reachable(used: seq<bool>, v: u32, i: nat)
    requires i < |used|
  {
    forall j :: 0 <= j < |used| && Before(v, j, i, |used|) ==> used[j]
  }

  /** Probing for `v` visits slot `j` before slot `i`. */
  predicate Before(v: u32, j: nat, i: nat, cap: nat)
    requires j < cap && i < cap
  {
    Steps(Home(v, cap), j, cap) < Steps(Home(v, cap), i, cap)
  }

  ghost predicate Table(keys: seq<u32>, used: seq<bool>, slot: map<u32, nat>) {
    && Indexed(keys, used, slot)
    && forall v :: v in slot ==> Reachable(used, v, slot[v])
  }

  /** Below full load some slot is free, so every probe meets one. */
  lemma FreeSlot(used: seq<bool>) returns (f: nat)
    requires |Occupied(used)| < |used|
    ensures f < |used| && !used[f]
  {
    if Below(|used|) <= Occupied(used) {
      SubsetSize(Below(|used|), Occupied(used));
    }
    f :| f in Below(|used|) && f !in Occupied(used);
  }

  /** A free slot met before the key proves the key absent. */
  lemma AbsentAt(keys: seq<u32>, used: seq<bool>, slot: map<u32, nat>, v: u32, i: nat)
    requires Table(keys, used, slot) && i < |keys| && !used[i]
    requires forall j :: 0 <= j < |keys| && Before(v, j, i, |keys|) ==> used[j] && keys[j] != v
    ensures v !in slot
  {
    if v in slot {
      StepsInjective(Home(v, |keys|), slot[v], i, |keys|);
    }
  }

  lemma StepsInjective(h: nat, i: nat, j: nat, cap: nat)
    requires h < cap && i < cap && j < cap
    ensures Steps(h, i, cap) == Steps(h, j, cap) <==> i == j
  {
  }

  /** One probe step, as long as a free slot lies ahead: slot `i` joins the visited ones. */
  lemma ProbeStep(v: u32, i: nat, free: nat, cap: nat)
    requires i < cap && free < cap && i != free && !Before(v, free, i, cap)
    ensures Steps(Home(v, cap), i, cap) < Steps(Home(v, cap), Next(i, cap), cap) <= Steps(Home(v, cap), free, cap)
    ensures forall j :: 0 <= j < cap ==> (Before(v, j, Next(i, cap), cap) <==> j == i || Before(v, j, i, cap))
  {
  }

  /** Storing an absent key in the first free slot of its probe keeps the table. */
  lemma StoreKeeps(keys: seq<u32>, used: seq<bool>, slot: map<u32, nat>, v: u32, i: nat)
    requires Table(keys, used, slot) && i < |keys| && !used[i] && v !in slot
    requires forall j :: 0 <= j < |keys| && Before(v, j, i, |keys|) ==> used[j]
    ensures Table(keys[i := v], used[i := true], slot[v := i])
    ensures |slot[v := i]| == |slot| + 1
  {
    StoreIndexed(keys, used, slot, v, i);
    var grown := slot[v := i];
    forall u | u in grown ensures Reachable(used[i := true], u, grown[u]) {
      assert u != v ==> Reachable(used, u, slot[u]);
    }
  }

  lemma StoreIndexed(keys: seq<u32>, used: seq<bool>, slot: map<u32, nat>, v: u32, i: nat)
    requires Indexed(keys, used, slot) && i < |keys| && !used[i] && v !in slot
    ensures Indexed(keys[i := v], used[i := true], slot[v := i])
    ensures |slot[v := i]| == |slot| + 1
  {
    assert Occupied(used[i := true]) == Occupied(used) + {i};
    assert slot[v := i].Keys == slot.Keys + {v};
  }

  lemma EmptyTable(keys: seq<u32>, used: seq<bool>)
    requires |keys| == |used| > 0 && used == seq(|keys|, _ => false)
    ensures Table(keys, used, map[])
  {
    assert Occupied(used) == {};
  }

  /** The keys stored in the slots below `n`: what a rehash has copied so far. */
  ghost function StoredBelow(slot: map<u32, nat>, n: nat): set<u32> {
    set v | v in slot && slot[v] < n
  }

  /** Walking the old table slot by slot collects exactly its keys, and never more than it holds. */
  lemma StoredNext(keys: seq<u32>, used: seq<bool>, slot: map<u32, nat>, n: nat)
    requires Table(keys, used, slot) && n < |keys|
    ensures StoredBelow(slot, n + 1) == StoredBelow(slot, n) + if used[n] then {keys[n]} else {}
    ensures used[n] ==> |StoredBelow(slot, n)| + 1 <= |slot|
  {
    if used[n] {
      assert StoredBelow(slot, n) + {keys[n]} <= slot.Keys;
      assert keys[n] !in StoredBelow(slot, n);
      SubsetSize(StoredBelow(slot, n) + {keys[n]}, slot.Keys);
    }
  }

  /** Before the first slot nothing has been copied, after the last one all keys. */
  lemma StoredEnds(keys: seq<u32>, used: seq<bool>, slot: map<u32, nat>)
    requires Table(keys, used, slot)
    ensures StoredBelow(slot, 0) == {} && StoredBelow(slot, |keys|) == slot.Keys
  {
    assert forall v :: v in slot.Keys ==> slot[v] < |keys|;
  }

  /* ---------- keys in a short window never collide ---------- */

  ghost predicate PowerOfTwo(n: nat) {
    n == 1 || (n > 1 && n % 2 == 0 && PowerOfTwo(n / 2))
  }

  lemma PowerDouble(n: nat)
    requires PowerOfTwo(n)
    ensures PowerOfTwo(n * 2)
  {
    assert n * 2 / 2 == n;
  }

  lemma {:induction false} PowersDivide(m: nat, n: nat) returns (q: nat)
    requires PowerOfTwo(m) && PowerOfTwo(n) && m <= n
    ensures n == m * q
  {
    if m == 1 {
      q := n;
    } else {
      q := PowersDivide(m / 2, n / 2);
      assert n == 2 * (n / 2) == 2 * (m / 2 * q) == m * q;
    }
  }

  lemma {:induction false} PowerProduct(m: nat, n: nat)
    requires PowerOfTwo(m) && PowerOfTwo(n)
    ensures PowerOfTwo(m * n)
  {
    if m > 1 {
      PowerProduct(m / 2, n);
      assert m * n == 2 * (m / 2 * n);
      assert m * n / 2 == m / 2 * n;
    }
  }

  lemma ModulusIsPower()
    ensures PowerOfTwo(MODULUS)
  {
    PowerProduct(4, 4);
    PowerProduct(16, 16);
    PowerProduct(256, 256);
    PowerProduct(65536, 65536);
  }

  /** Modulo a divisor of 2^32 the wrapped product is the product. */
  lemma HomeIsProduct(v: u32, cap: nat)
    requires PowerOfTwo(cap) && cap <= MODULUS
    ensures Home(v, cap) == v * MULTIPLIER % cap
  {
    ModulusIsPower();
    var q := PowersDivide(cap, MODULUS);
    hide PowerOfTwo;
    ModOfMultiple(v * MULTIPLIER, cap, q, MODULUS);
  }

  /** Multiplication by an odd constant is a bijection modulo a power of two: equal homes force
      congruent keys. */
  lemma HomeInjective(v: u32, w: u32, cap: nat)
    requires PowerOfTwo(cap) && cap <= MODULUS && Home(v, cap) == Home(w, cap)
    ensures v % cap == w % cap
  {
    HomeIsProduct(v, cap);
    HomeIsProduct(w, cap);
    ModulusIsPower();
    var q := PowersDivide(cap, MODULUS);
    hide PowerOfTwo, Home;
    var t := CongruentDifference(v * MULTIPLIER, w * MULTIPLIER, cap);
    MultiplierInverse();
    var d := CancelMultiplier(v - w, MULTIPLIER, INVERSE, cap, t, q, MODULUS);
    ModAddMultiple(w, d, cap);
  }

  lemma MultiplierInverse()
    ensures Inverse(MULTIPLIER, INVERSE, MODULUS)
  {
    var lap := MULTIPLIER * INVERSE / MODULUS;
    assert MULTIPLIER * INVERSE == 1 + lap * MODULUS;
  }

  /** All keys lie within `n` consecutive values from `base` on, wrapping at 2^32. */
  ghost predicate InWindow(keys: set<u32>, base: u32, n: nat) {
    forall v :: v in keys ==> (v - base) % MODULUS < n
  }

  lemma WindowIncongruent(v: u32, w: u32, base: u32, cap: nat)
    requires PowerOfTwo(cap) && v != w
    requires (v - base) % MODULUS < cap && (w - base) % MODULUS < cap
    ensures v % cap != w % cap
  {
    if cap > MODULUS {
      DivModUnique(v, cap, 0, v);
      DivModUnique(w, cap, 0, w);
    } else if v % cap == w % cap {
      ShiftedCongruent(v - base, w - base, v, w, cap);
      OffsetMod(v - base, cap);
      OffsetMod(w - base, cap);
      SameOffset(v, w, base);
    }
  }

  /** Beyond 2^32 slots the mask keeps the whole hash. */
  lemma HomeBelow(v: u32, cap: nat)
    requires cap > 0
    ensures cap >= MODULUS ==> Home(v, cap) == Hash(v) == Home(v, MODULUS)
  {
    if cap >= MODULUS {
      DivModUnique(Hash(v), cap, 0, Hash(v));
      DivModUnique(Hash(v), MODULUS, 0, Hash(v));
    }
  }

  lemma OffsetMod(x: int, n: nat)
    requires PowerOfTwo(n) && n <= MODULUS && x % MODULUS < n
    ensures x % n == x % MODULUS
  {
    ModulusIsPower();
    OffsetModOf(x, n, MODULUS);
  }

  lemma OffsetModOf(x: int, n: nat, m: nat)
    requires PowerOfTwo(n) && PowerOfTwo(m) && n <= m && x % m < n
    ensures x % n == x % m
  {
    var q := PowersDivide(n, m);
    SmallRemainder(x, n, q, m);
  }

  lemma SmallRemainder(x: int, n: nat, q: nat, m: nat)
    requires n > 0 && q > 0 && n * q == m && 0 < m && x % m < n
    ensures x % n == x % m
  {
    ModOfMultiple(x, n, q, m);
    DivModUnique(x % m, n, 0, x % m);
  }

  lemma ShiftedCongruent(a: int, b: int, v: int, w: int, n: nat)
    requires n > 0 && v % n == w % n && a - b == v - w
    ensures a % n == b % n
  {
    var t := CongruentDifference(v, w, n);
    assert a == n * t + b;
    ModAddMultiple(b, t, n);
  }

  lemma SameOffset(v: u32, w: u32, base: u32)
    requires (v - base) % MODULUS == (w - base) % MODULUS
    ensures v == w
  {
  }

  /** In any table with a free slot, keys with pairwise distinct homes all sit at home: the first
      occupied slot of a run must be a home, and then each following one. */
  lemma {:induction false} DistinctHomesAtHome(
      keys: seq<u32>, used: seq<bool>, slot: map<u32, nat>, free: nat, v: u32)
    requires Table(keys, used, slot) && free < |keys| && !used[free] && v in slot
    requires forall u, w :: u in slot && w in slot && u != w ==> Home(u, |keys|) != Home(w, |keys|)
    ensures slot[v] == Home(v, |keys|)
    decreases Steps(free, slot[v], |keys|)
  {
    var cap, h := |keys|, Home(v, |keys|);
    if slot[v] != h {
      assert used[h];
      assert !(Steps(h, free, cap) < Steps(h, slot[v], cap));
      assert used[slot[v]];
      assert Steps(free, h, cap) < Steps(free, slot[v], cap);
      var w := keys[h];
      DistinctHomesAtHome(keys, used, slot, free, w);
      assert false;
    }
  }

  /** Two keys have one home exactly when they agree modulo the table size. */
  lemma SameHome(v: u32, w: u32, cap: nat)
    requires PowerOfTwo(cap)
    ensures Home(v, cap) == Home(w, cap) <==> v % cap == w % cap
  {
    if cap <= MODULUS {
      if Home(v, cap) == Home(w, cap) {
        HomeInjective(v, w, cap);
      } else if v % cap == w % cap {
        CongruentHomes(v, w, cap);
      }
    } else {
      HugeTable(v, w, cap);
    }
  }

  lemma CongruentHomes(v: u32, w: u32, cap: nat)
    requires PowerOfTwo(cap) && cap <= MODULUS && v % cap == w % cap
    ensures Home(v, cap) == Home(w, cap)
  {
    HomeIsProduct(v, cap);
    HomeIsProduct(w, cap);
    hide PowerOfTwo, Home;
    CongruentProducts(v, w, MULTIPLIER, cap);
  }

  /** More slots than keys there are: nothing wraps. */
  lemma HugeTable(v: u32, w: u32, cap: nat)
    requires cap > MODULUS
    ensures Home(v, cap) == Home(w, cap) <==> v % cap == w % cap
  {
    hide PowerOfTwo, Home;
    ModulusIsPower();
    HomeBelow(v, cap);
    HomeBelow(w, cap);
    DivModUnique(v, cap, 0, v);
    DivModUnique(w, cap, 0, w);
    if Home(v, cap) == Home(w, cap) {
      HomeInjective(v, w, MODULUS);
    }
  }

  /** No collision: every stored key sits in its own home slot. */
  ghost predicate AllAtHome(slot: map<u32, nat>, cap: nat)
    requires cap > 0
  {
    forall v :: v in slot ==> slot[v] == Home(v, cap)
  }

  /** No two keys agree modulo `n`. */
  ghost predicate Incongruent(keys: set<u32>, n: nat)
    requires n > 0
  {
    forall v, w :: v in keys && w in keys && v != w ==> v % n != w % n
  }

  /** A table is free of collisions exactly when no two of its keys agree modulo its size, whatever the history of
      insertions and growth. */
  lemma AtHomeExactlyWhen(keys: seq<u32>, used: seq<bool>, slot: map<u32, nat>)
    requires Table(keys, used, slot) && PowerOfTwo(|keys|) && |slot| < |keys|
    ensures AllAtHome(slot, |keys|) <==> Incongruent(slot.Keys, |keys|)
  {
    hide PowerOfTwo, Home;
    forall v, w | v in slot && w in slot && v != w
      ensures Home(v, |keys|) == Home(w, |keys|) <==> v % |keys| == w % |keys|
      ensures slot[v] != slot[w]
    {
      SameHome(v, w, |keys|);
    }
    if Incongruent(slot.Keys, |keys|) {
      var free := FreeSlot(used);
      forall v | v in slot ensures slot[v] == Home(v, |keys|) {
        DistinctHomesAtHome(keys, used, slot, free, v);
      }
    }
  }

  /** Consecutive keys never collide: whenever all keys of a table lie in a window no longer than its
      capacity, every key sits in its own home slot, whatever the history of insertions and growth. */
  lemma WindowAtHome(keys: seq<u32>, used: seq<bool>, slot: map<u32, nat>, base: u32)
    requires Table(keys, used, slot) && PowerOfTwo(|keys|) && |slot| < |keys|
    requires InWindow(slot.Keys, base, |keys|)
    ensures AllAtHome(slot, |keys|)
  {
    forall u, w | u in slot && w in slot && u != w ensures u % |keys| != w % |keys| {
      assert u in slot.Keys && w in slot.Keys;
      WindowIncongruent(u, w, base, |keys|);
    }
    AtHomeExactlyWhen(keys, used, slot);
  }
}
