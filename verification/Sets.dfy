/** The natural numbers below a bound, counting by subset, and lists without repetition. */
module Sets {

  function Below(n: nat): (r: set<nat>)
    ensures |r| == n
    ensures forall i :: i in r <==> 0 <= i < n
  {
    if n == 0 then {} else Below(n - 1) + {n - 1}
  }

  lemma {:induction false} SubsetSize<T>(a: set<T>, b: set<T>)
    requires a <= b
    ensures |a| <= |b|
    ensures |a| == |b| ==> a == b
  {
    if a != {} {
      var x :| x in a;
      SubsetSize(a - {x}, b - {x});
    }
  }

  lemma AddMember<T>(s: set<T>, x: T)
    requires x in s
    ensures s + {x} == s
  {
  }

  ghost predicate Distinct(s: seq<nat>) {
    forall i, j :: 0 <= i < j < |s| ==> s[i] != s[j]
  }

  ghost predicate AllBelow(s: seq<nat>, k: nat) {
    forall i :: 0 <= i < |s| ==> s[i] < k
  }

  function Members(s: seq<nat>): set<nat> {
    set x | x in s
  }

  lemma {:induction false} MembersSize(s: seq<nat>)
    ensures |Members(s)| <= |s|
    ensures Distinct(s) ==> |Members(s)| == |s|
  {
    if s != [] {
      var t := s[..|s| - 1];
      MembersSize(t);
      assert s == t + [s[|s| - 1]];
      assert Members(s) == Members(t) + {s[|s| - 1]};
    }
  }

  lemma DistinctAppend(s: seq<nat>, x: nat)
    requires Distinct(s) && x !in s
    ensures Distinct(s + [x])
  {
  }

  lemma NoMembers(s: seq<nat>)
    ensures Members(s[..0]) == {}
  {
  }

  lemma NextMember(s: seq<nat>, i: nat, k: nat)
    requires i < |s| && Distinct(s) && AllBelow(s, k)
    ensures s[i] < k && s[i] in Members(s) && s[i] !in Members(s[..i])
    ensures Members(s[..i + 1]) == Members(s[..i]) + {s[i]}
  {
    assert s[..i + 1] == s[..i] + [s[i]];
  }

  /** An injective map into the numbers below `n` has at most `n` keys. */
  lemma InjectionSize(m: map<nat, nat>, n: nat)
    requires forall x :: x in m ==> m[x] < n
    requires forall x, y :: x in m && y in m && x != y ==> m[x] != m[y]
    ensures |m| <= n
  {
    ImageSize(m, m.Keys);
    SubsetSize(set x | x in m.Keys :: m[x], Below(n));
  }

  lemma {:induction false} ImageSize(m: map<nat, nat>, keys: set<nat>)
    requires keys <= m.Keys
    requires forall x, y :: x in m && y in m && x != y ==> m[x] != m[y]
    ensures |set x | x in keys :: m[x]| == |keys|
  {
    if keys != {} {
      var k :| k in keys;
      var rest := keys - {k};
      ImageSize(m, rest);
      assert (set x | x in keys :: m[x]) == (set x | x in rest :: m[x]) + {m[k]};
    }
  }
}
