/** The two representations of a pending frame's remaining blocks
    (src/fountain.rs, `BlockSet`): a list, or a bit vector with a counter. */
module BlockSets {
  import opened Sets
  import Bits

  const DENSE_LIMIT: nat := 256

  datatype BlockSet = Dense(members: seq<nat>) | Sparse(bits: seq<bv64>, count: nat) {

    /** The set either form stands for. */
    ghost function Elems(): set<nat> {
      match this
      case Dense(v) => Members(v)
      case Sparse(bits, _) => Ones(bits)
    }

    ghost predicate Valid() {
      match this
      case Dense(v) => Distinct(v)
      case Sparse(bits, count) => count == |Ones(bits)|
    }

    /** The blocks this set can be asked about without leaving its bit vector. */
    predicate Covers(block: nat) {
      Sparse? ==> block < 64 * |bits|
    }

    function Len(): (n: nat)
      requires Valid()
      ensures n == |Elems()|
    {
      match this
      case Dense(v) => MembersSize(v); |v|
      case Sparse(_, count) => count
    }

    /** Removes `block` if present: by `swap_remove`, or by clearing its bit. */
    method Remove(block: nat) returns (r: BlockSet)
      requires Valid() && Covers(block)
      ensures r.Valid() && r.Elems() == Elems() - {block}
      ensures forall b :: Covers(b) ==> r.Covers(b)
    {
      match this
      case Dense(v) =>
        var found, i := Position(v, block);
        if found {
          SwapRemove(v, i);
          r := Dense(v[i := v[|v| - 1]][..|v| - 1]);
        } else {
          r := this;
        }
      case Sparse(bits, count) =>
        ghost var n := 64 * |bits|;
        var present := Bits.Test(bits, block, n);
        if present {
          var cleared := Bits.Write(bits, block, false, n);
          assert block in Ones(bits) && Ones(cleared) == Ones(bits) - {block};
          r := Sparse(cleared, count - 1);
        } else {
          r := this;
        }
    }

    /** Some member; the only one when the set is a singleton. */
    method Single() returns (b: nat)
      requires Valid() && Elems() != {}
      ensures b in Elems()
    {
      match this
      case Dense(v) =>
        b := v[0];
      case Sparse(bits, _) =>
        ghost var n := 64 * |bits|;
        for wi := 0 to |bits|
          invariant forall j :: 0 <= j < wi ==> bits[j] == 0
        {
          if bits[wi] != 0 {
            b := FirstOne(bits, wi);
            return;
          }
        }
        NoOnes(bits);
        assert false;
    }
  }

  /** The set bits of a bit vector. */
  ghost function Ones(bits: seq<bv64>): set<nat> {
    set b: nat | b < 64 * |bits| && Bits.Flags(bits, 64 * |bits|)[b]
  }

  lemma NoOnes(bits: seq<bv64>)
    requires forall j :: 0 <= j < |bits| ==> bits[j] == 0
    ensures Ones(bits) == {}
  {
    Bits.FlagsZero(bits, 64 * |bits|);
  }

  /** `wi * 64 + trailing_zeros` of a nonzero word. */
  method FirstOne(bits: seq<bv64>, wi: nat) returns (b: nat)
    requires wi < |bits| && bits[wi] != 0
    ensures b in Ones(bits)
  {
    ghost var r := Bits.NonzeroHasBit(bits[wi]);
    var tz := Bits.TrailingZeros(bits[wi], 0);
    b := wi * 64 + tz;
    Bits.FlagAt(bits, 64 * |bits|, b);
    assert b / 64 == wi && b % 64 == tz;
  }

  method Position(v: seq<nat>, block: nat) returns (found: bool, i: nat)
    ensures found ==> i < |v| && v[i] == block
    ensures !found ==> block !in v
  {
    for j := 0 to |v|
      invariant block !in v[..j]
    {
      if v[j] == block {
        return true, j;
      }
    }
    found, i := false, 0;
  }

  lemma SwapRemove(v: seq<nat>, i: nat)
    requires i < |v| && Distinct(v)
    ensures var r := v[i := v[|v| - 1]][..|v| - 1];
            Distinct(r) && Members(r) == Members(v) - {v[i]}
  {
    var last := |v| - 1;
    var r := v[i := v[last]][..last];
    forall x | x in Members(v) - {v[i]} ensures x in r {
      var j :| 0 <= j < |v| && v[j] == x;
      assert x == r[if j == last then i else j];
    }
  }

  /** The representation of a list of distinct blocks below `k`. */
  method NewBlockSet(k: nat, members: seq<nat>) returns (r: BlockSet)
    requires Distinct(members) && AllBelow(members, k)
    ensures r.Valid() && r.Elems() == Members(members)
    ensures forall b :: 0 <= b < k ==> r.Covers(b)
  {
    if |members| <= DENSE_LIMIT {
      return Dense(members);
    }
    var bits: seq<bv64> := seq((k + 63) / 64, _ => 0);
    ghost var n := 64 * |bits|;
    NoOnes(bits);
    for i := 0 to |members|
      invariant 64 * |bits| == n >= k
      invariant Ones(bits) == Members(members[..i])
    {
      bits := SetOne(bits, members[i]);
      assert members[..i + 1] == members[..i] + [members[i]];
    }
    assert members[..|members|] == members;
    MembersSize(members);
    r := Sparse(bits, |members|);
  }

  method SetOne(bits: seq<bv64>, b: nat) returns (r: seq<bv64>)
    requires b < 64 * |bits|
    ensures |r| == |bits| && Ones(r) == Ones(bits) + {b}
  {
    r := Bits.Write(bits, b, true, 64 * |bits|);
  }
}
