/** The robust-soliton degree distribution and its quantised sampler
    (src/soliton.rs), with `f64` read as the real numbers. */
module Soliton {

  /** The two transcendental functions of the source, as parameters: nothing is assumed of them. */
  datatype Libm = Libm(dlog: real -> real, sqrt: real -> real)

  const SOLITON_C: real := 0.1
  const SOLITON_DELTA: real := 0.5

  function Max(x: real, y: real): real {
    if x >= y then x else y
  }

  function Min(x: nat, y: nat): nat {
    if x <= y then x else y
  }

  function Ceil(x: real): int {
    -((-x).Floor)
  }

  /* ---------- the distribution, as README.md states it ---------- */

  function Ripple(m: Libm, k: nat): (r: real)
    ensures r >= 1.0
  {
    Max(SOLITON_C * m.dlog(k as real / SOLITON_DELTA) * m.sqrt(k as real), 1.0)
  }

  function Spike(m: Libm, k: nat): int {
    var s := Ceil(k as real / Ripple(m, k));
    if s <= k then s else k
  }

  function Rho(k: nat, d: nat): (r: real)
    requires k > 0 && d > 0
    ensures r > 0.0
  {
    if d == 1 then 1.0 / k as real else 1.0 / (d * (d - 1)) as real
  }

  function Tau(m: Libm, k: nat, d: nat): (t: real)
    requires k > 0 && d > 0
    ensures t >= 0.0
  {
    if d < Spike(m, k) then Ripple(m, k) / (d * k) as real
    else if d == Spike(m, k) then Ripple(m, k) * Max(m.dlog(Ripple(m, k) / SOLITON_DELTA), 0.0) / k as real
    else 0.0
  }

  /** The unnormalised mass of the degrees up to `d`. */
  function Cumulative(m: Libm, k: nat, d: nat): (c: real)
    requires k > 0
    ensures c >= 0.0
  {
    if d == 0 then 0.0 else Cumulative(m, k, d - 1) + (Rho(k, d) + Tau(m, k, d))
  }

  /** The cumulative distribution over the degrees 1..k. */
  function Cdf(m: Libm, k: nat): (c: seq<real>)
    ensures |c| == k
  {
    if k == 0 then []
    else if k == 1 then [1.0]
    else
      TotalAtLeastOne(m, k);
      seq(k, i requires 0 <= i < k => if i == k - 1 then 1.0 else Cumulative(m, k, i + 1) / Cumulative(m, k, k))
  }

  function RhoSum(k: nat, d: nat): real
    requires k > 0
  {
    if d == 0 then 0.0 else RhoSum(k, d - 1) + Rho(k, d)
  }

  /** The ideal-soliton part telescopes. */
  lemma {:induction false} RhoTelescopes(k: nat, d: nat)
    requires k > 0 && d > 0
    ensures RhoSum(k, d) == 1.0 / k as real + 1.0 - 1.0 / d as real
  {
    if d > 1 {
      RhoTelescopes(k, d - 1);
      PartialFraction(d);
    } else {
      assert RhoSum(k, 0) == 0.0;
    }
  }

  lemma PartialFraction(d: nat)
    requires d > 1
    ensures 1.0 / (d * (d - 1)) as real == 1.0 / (d - 1) as real - 1.0 / d as real
  {
    var x, y := d as real, (d - 1) as real;
    assert (d * (d - 1)) as real == x * y;
    assert (1.0 / y - 1.0 / x) * (x * y) == 1.0;
  }

  lemma {:induction false} CumulativeAboveRho(m: Libm, k: nat, d: nat)
    requires k > 0
    ensures Cumulative(m, k, d) >= RhoSum(k, d)
  {
    if d > 0 { CumulativeAboveRho(m, k, d - 1); }
  }

  /** So the ideal part of all k degrees has mass exactly 1, and the normaliser is at least 1. */
  lemma TotalAtLeastOne(m: Libm, k: nat)
    requires k > 0
    ensures RhoSum(k, k) == 1.0 && Cumulative(m, k, k) >= 1.0
  {
    RhoTelescopes(k, k);
    CumulativeAboveRho(m, k, k);
  }

  lemma {:induction false} CumulativeIncreases(m: Libm, k: nat, i: nat, j: nat)
    requires k > 0 && i < j
    ensures Cumulative(m, k, i) < Cumulative(m, k, j)
  {
    if i < j - 1 { CumulativeIncreases(m, k, i, j - 1); }
  }

  lemma DivideMonotone(x: real, y: real, t: real)
    requires t > 0.0 && x < y
    ensures x / t < y / t
  {
    assert y / t - x / t == (y - x) / t;
  }

  ghost predicate Ascending(cdf: seq<real>) {
    forall i, j :: 0 <= i <= j < |cdf| ==> cdf[i] <= cdf[j]
  }

  /** A distribution function over 1..|cdf|: positive, ascending, ending in 1. */
  ghost predicate IsCdf(cdf: seq<real>) {
    |cdf| > 0 && Ascending(cdf) && cdf[|cdf| - 1] == 1.0 && cdf[0] > 0.0
  }

  /** `Cdf` is a distribution function ... */
  lemma CdfIsDistribution(m: Libm, k: nat)
    requires k > 0
    ensures IsCdf(Cdf(m, k))
  {
    if k > 1 {
      var c := Cdf(m, k);
      forall i, j | 0 <= i < j < k ensures c[i] <= c[j] {
        CdfAt(m, k, i);
        CdfAt(m, k, j);
        CumulativeIncreases(m, k, i + 1, j + 1);
        TotalAtLeastOne(m, k);
        DivideMonotone(Cumulative(m, k, i + 1), Cumulative(m, k, j + 1), Cumulative(m, k, k));
      }
      CdfAt(m, k, 0);
      TotalAtLeastOne(m, k);
      CumulativeIncreases(m, k, 0, 1);
      DividePositive(Cumulative(m, k, 1), Cumulative(m, k, k));
    }
  }

  /** ... whose last entry needs no special case ... */
  lemma CdfAt(m: Libm, k: nat, i: nat)
    requires i < k && k > 1
    ensures Cumulative(m, k, k) > 0.0 && Cdf(m, k)[i] == Cumulative(m, k, i + 1) / Cumulative(m, k, k)
  {
    TotalAtLeastOne(m, k);
    if i == k - 1 { DivideSelf(Cumulative(m, k, k)); }
  }

  lemma DivideSelf(t: real)
    requires t > 0.0
    ensures t / t == 1.0
  {
  }

  /** ... and in which degree `d` has mass `(rho(d) + tau(d)) / total`. */
  lemma DegreeMass(m: Libm, k: nat, d: nat)
    requires 1 <= d <= k && k > 1
    ensures Cumulative(m, k, k) > 0.0
    ensures Cdf(m, k)[d - 1] - (if d == 1 then 0.0 else Cdf(m, k)[d - 2])
            == (Rho(k, d) + Tau(m, k, d)) / Cumulative(m, k, k)
  {
    CdfAt(m, k, d - 1);
    DivideDifference(Cumulative(m, k, d), Cumulative(m, k, d - 1), Cumulative(m, k, k));
    if d > 1 {
      CdfAt(m, k, d - 2);
    } else {
      assert Cumulative(m, k, 0) == 0.0;
    }
  }

  lemma DividePositive(x: real, t: real)
    requires x > 0.0 && t > 0.0
    ensures x / t > 0.0
  {
  }

  lemma DivideDifference(x: real, y: real, t: real)
    requires t > 0.0
    ensures x / t - y / t == (x - y) / t && 0.0 / t == 0.0
  {
  }

  /* ---------- the published formula ---------- */

  /** The mass a table gives to degree `d`, times `total`. */
  function MassOf(c: seq<real>, total: real, d: nat): real
    requires 1 <= d <= |c|
  {
    (c[d - 1] - (if d == 1 then 0.0 else c[d - 2])) * total
  }

  /** `r` is `max(1, c * ln(k / delta) * sqrt(k))` with `c` 0.1 and `delta` 0.5. */
  ghost predicate IsRipple(m: Libm, k: nat, r: real) {
    var c := 0.1 * m.dlog(k as real / 0.5) * m.sqrt(k as real);
    r == if c > 1.0 then c else 1.0
  }

  /** `s` is `k / r` rounded up. */
  ghost predicate IsSpike(k: nat, r: real, s: nat) {
    (s as real - 1.0) * r < k as real <= s as real * r
  }

  /** `r * max(0, ln(r / delta))`. */
  function SpikePart(m: Libm, r: real): real {
    r * (if m.dlog(r / 0.5) > 0.0 then m.dlog(r / 0.5) else 0.0)
  }

  /** With an expected ripple of `r` and the spike at `s`, the table is the robust-soliton distribution in closed form,
      normalised by `total`; the last entry, 1, determines `total`. */
  lemma RobustSoliton(m: Libm, k: nat, r: real, s: nat) returns (total: real)
    requires k > 1 && IsRipple(m, k, r) && IsSpike(k, r, s)
    ensures total > 0.0 && 1 <= s <= k && Cdf(m, k)[k - 1] == 1.0
    ensures var c, spike := Cdf(m, k), SpikePart(m, r);
            && MassOf(c, total, 1) == 1.0 / k as real + (if s == 1 then spike else r) / k as real
            && (forall d: nat :: 1 < d < s ==>
                  MassOf(c, total, d) == 1.0 / d as real / (d - 1) as real + r / d as real / k as real)
            && (s > 1 ==> MassOf(c, total, s) == 1.0 / s as real / (s - 1) as real + spike / k as real)
            && (forall d: nat :: s < d <= k ==> MassOf(c, total, d) == 1.0 / d as real / (d - 1) as real)
  {
    hide Cdf, MassOf, IdealPart, ExtraPart, IsRipple, IsSpike, SpikePart;
    total := Decomposed(m, k, r, s);
    Cases(k, r, SpikePart(m, r), s, Cdf(m, k), total);
  }

  lemma Decomposed(m: Libm, k: nat, r: real, s: nat) returns (total: real)
    requires k > 1 && IsRipple(m, k, r) && IsSpike(k, r, s)
    ensures total > 0.0 && 1 <= s <= k && Cdf(m, k)[k - 1] == 1.0
    ensures forall d: nat :: 1 <= d <= k ==> MassOf(Cdf(m, k), total, d) == IdealPart(k, d) + ExtraPart(k, r, SpikePart(m, r), s, d)
  {
    hide Cdf, Cumulative, Ripple, Spike, MassOf, IdealPart, ExtraPart, IsRipple, IsSpike;
    RippleIs(m, k, r);
    SpikeAt(m, k, r, s);
    total := Cumulative(m, k, k);
    TotalAtLeastOne(m, k);
    CdfAt(m, k, k - 1);
    DivideSelf(total);
    forall d: nat | 1 <= d <= k ensures MassOf(Cdf(m, k), total, d) == IdealPart(k, d) + ExtraPart(k, r, SpikePart(m, r), s, d) {
      Mass(m, k, d);
      Parts(m, k, r, s, d);
    }
  }

  lemma RippleIs(m: Libm, k: nat, r: real)
    requires IsRipple(m, k, r)
    ensures r == Ripple(m, k)
  {
  }

  /** The two summands with their products written as repeated divisions. */
  function IdealPart(k: nat, d: nat): real
    requires k > 0 && d > 0
  {
    if d == 1 then 1.0 / k as real else 1.0 / d as real / (d - 1) as real
  }

  function ExtraPart(k: nat, r: real, spike: real, s: nat, d: nat): real
    requires k > 0 && d > 0
  {
    if d < s then r / d as real / k as real else if d == s then spike / k as real else 0.0
  }

  lemma Parts(m: Libm, k: nat, r: real, s: nat, d: nat)
    requires k > 0 && d > 0 && r == Ripple(m, k) && s == Spike(m, k)
    ensures Rho(k, d) == IdealPart(k, d) && Tau(m, k, d) == ExtraPart(k, r, SpikePart(m, r), s, d)
  {
    hide Ripple, Spike;
    if d > 1 { DivideTwice(1.0, d, d - 1); }
    DivideTwice(r, d, k);
  }

  lemma Cases(k: nat, r: real, spike: real, s: nat, c: seq<real>, total: real)
    requires k > 1 && |c| == k && 1 <= s <= k
    requires forall d: nat :: 1 <= d <= k ==> MassOf(c, total, d) == IdealPart(k, d) + ExtraPart(k, r, spike, s, d)
    ensures MassOf(c, total, 1) == 1.0 / k as real + (if s == 1 then spike else r) / k as real
    ensures forall d: nat :: 1 < d < s ==>
              MassOf(c, total, d) == 1.0 / d as real / (d - 1) as real + r / d as real / k as real
    ensures s > 1 ==> MassOf(c, total, s) == 1.0 / s as real / (s - 1) as real + spike / k as real
    ensures forall d: nat :: s < d <= k ==> MassOf(c, total, d) == 1.0 / d as real / (d - 1) as real
  {
    hide MassOf;
    assert r / 1 as real == r;
  }

  lemma DivideTwice(x: real, a: nat, b: nat)
    requires a > 0 && b > 0
    ensures a * b > 0 && x / (a * b) as real == x / a as real / b as real
  {
    var y, u, v := x / a as real / b as real, a as real, b as real;
    assert a * b >= 1 * b;
    assert (a * b) as real == u * v;
    assert y * v == x / u;
    assert x == x / u * u == y * (u * v);
  }

  lemma SpikeAt(m: Libm, k: nat, r: real, s: nat)
    requires k > 1 && IsSpike(k, r, s) && r == Ripple(m, k)
    ensures 1 <= s <= k && Spike(m, k) == s
  {
    hide Ripple;
    SpikeInRange(k, r, s);
    Quotient(k as real, r, s as real);
    var n: int := s;
    FloorAbove(-(k as real / r), -n);
  }

  lemma SpikeInRange(k: nat, r: real, s: nat)
    requires k > 1 && IsSpike(k, r, s) && r >= 1.0
    ensures 1 <= s <= k
  {
    assert s > 0;
    TimesOrder(1.0, r, k as real);
    TimesOrder(k as real, s as real - 1.0, r);
    assert 1.0 * k as real <= r * k as real;
  }

  lemma FloorAbove(x: real, n: int)
    requires n as real <= x < n as real + 1.0
    ensures x.Floor == n
  {
  }

  lemma Quotient(x: real, r: real, s: real)
    requires r > 0.0 && (s - 1.0) * r < x <= s * r
    ensures s - 1.0 < x / r <= s
  {
    var y := x / r;
    assert y * r == x;
    TimesOrder(s, y, r);
    TimesOrder(y, s - 1.0, r);
  }

  lemma TimesOrder(x: real, y: real, r: real)
    requires r > 0.0
    ensures x < y ==> x * r < y * r
    ensures x <= y ==> x * r <= y * r
  {
    assert y * r - x * r == (y - x) * r;
  }

  lemma Mass(m: Libm, k: nat, d: nat)
    requires 1 <= d <= k && k > 1
    ensures MassOf(Cdf(m, k), Cumulative(m, k, k), d) == Rho(k, d) + Tau(m, k, d)
  {
    hide Cdf, Rho, Tau;
    DegreeMass(m, k, d);
    DivideBack(Rho(k, d) + Tau(m, k, d), Cumulative(m, k, k));
  }

  lemma DivideBack(x: real, t: real)
    requires t > 0.0
    ensures x / t * t == x
  {
  }

  /* ---------- the imperative construction ---------- */

  method SolitonCdf(m: Libm, k: nat) returns (cdf: seq<real>)
    ensures cdf == Cdf(m, k)
  {
    if k == 0 {
      return [];
    }
    if k == 1 {
      return [1.0];
    }
    var a := new real[k];
    var total := Accumulate(m, k, a);
    Normalise(a, total);
    a[k - 1] := 1.0;
    cdf := a[..];
  }

  method TauTerm(m: Libm, k: nat, d: nat, r: real, spike: int) returns (tau: real)
    requires k > 0 && d > 0 && r == Ripple(m, k) && spike == Spike(m, k)
    ensures tau == Tau(m, k, d)
  {
    tau := 0.0;
    if d < spike {
      tau := r / (d * k) as real;
    } else if d == spike {
      tau := r * Max(m.dlog(r / SOLITON_DELTA), 0.0) / k as real;
    }
  }

  method Accumulate(m: Libm, k: nat, a: array<real>) returns (total: real)
    requires a.Length == k > 1
    modifies a
    ensures total == Cumulative(m, k, k) >= 1.0
    ensures forall i :: 0 <= i < k ==> a[i] == Cumulative(m, k, i + 1)
  {
    var r := Ripple(m, k);
    var spike := Spike(m, k);
    total := 0.0;
    for d := 1 to k + 1
      invariant total == Cumulative(m, k, d - 1)
      invariant forall i :: 0 <= i < d - 1 ==> a[i] == Cumulative(m, k, i + 1)
    {
      var rho := if d == 1 then 1.0 / k as real else 1.0 / (d * (d - 1)) as real;
      var tau := TauTerm(m, k, d, r, spike);
      total := total + (rho + tau);
      a[d - 1] := total;
    }
    TotalAtLeastOne(m, k);
  }

  method Normalise(a: array<real>, total: real)
    requires total > 0.0
    modifies a
    ensures forall i :: 0 <= i < a.Length ==> a[i] == old(a[i]) / total
  {
    for i := 0 to a.Length
      invariant forall j :: 0 <= j < a.Length ==> a[j] == if j < i then old(a[j]) / total else old(a[j])
    {
      a[i] := a[i] / total;
    }
  }

  /* ---------- sampling ---------- */

  /** The least index from `i` on whose entry reaches `x`; the last index if none does. */
  function Lower(cdf: seq<real>, x: real, i: nat): (r: nat)
    requires i < |cdf|
    ensures i <= r < |cdf|
    ensures r == |cdf| - 1 || cdf[r] >= x
    ensures forall j :: i <= j < r ==> cdf[j] < x
    decreases |cdf| - i
  {
    if i == |cdf| - 1 || cdf[i] >= x then i else Lower(cdf, x, i + 1)
  }

  /** The degree selected by `u`. */
  function Degree(cdf: seq<real>, u: real): (d: nat)
    ensures d <= |cdf| && (|cdf| > 0 ==> d > 0)
  {
    if |cdf| == 0 then 0
    else if u <= 0.0 then 1
    else if u >= 1.0 then |cdf|
    else Lower(cdf, u, 0) + 1
  }

  /** Below 1 that is the least degree whose cumulative mass reaches `u`; from 1 on it is the last degree. */
  lemma DegreeIsLeast(cdf: seq<real>, u: real, d: nat)
    requires IsCdf(cdf) && 0 < d <= |cdf|
    ensures u < 1.0 ==> (d == Degree(cdf, u) <==> cdf[d - 1] >= u && forall j :: 0 <= j < d - 1 ==> cdf[j] < u)
    ensures u >= 1.0 ==> (d == Degree(cdf, u) <==> d == |cdf|)
  {
    if 0.0 < u < 1.0 {
      var l := Lower(cdf, u, 0);
      assert cdf[l] >= u;
      if l < d - 1 {
        assert cdf[l] >= u;
      }
    } else if d > 1 {
      assert cdf[0] > 0.0;
    }
  }

  /** The bisection loop of `lower_bound` and `sample`. */
  method Bisect(cdf: seq<real>, x: real, from: nat, to: nat) returns (lo: nat)
    requires from <= to < |cdf|
    ensures from <= lo <= to
    ensures Ascending(cdf) && from <= Lower(cdf, x, 0) <= to ==> lo == Lower(cdf, x, 0)
  {
    var hi := to;
    lo := from;
    while lo < hi
      invariant from <= lo <= hi <= to
      invariant Ascending(cdf) && from <= Lower(cdf, x, 0) <= to ==> lo <= Lower(cdf, x, 0) <= hi
    {
      var mid := (lo + hi) / 2;
      if cdf[mid] >= x {
        hi := mid;
      } else {
        lo := mid + 1;
      }
    }
  }

  method LowerBound(cdf: seq<real>, x: real) returns (lo: nat)
    requires |cdf| > 0
    ensures lo < |cdf|
    ensures Ascending(cdf) ==> lo == Lower(cdf, x, 0)
  {
    lo := Bisect(cdf, x, 0, |cdf| - 1);
  }

  method DegreeBinary(cdf: seq<real>, u: real) returns (d: nat)
    ensures d <= |cdf| && (|cdf| > 0 ==> d > 0)
    ensures Ascending(cdf) ==> d == Degree(cdf, u)
  {
    if |cdf| == 0 {
      return 0;
    }
    if u <= 0.0 {
      return 1;
    }
    if u >= 1.0 {
      return |cdf|;
    }
    d := LowerBound(cdf, u);
    d := Min(d + 1, |cdf|);
  }

  /** The distribution with its 1025 precomputed lower bounds. */
  datatype DegreeCdf = DegreeCdf(cdf: seq<real>, quant: seq<nat>) {
    ghost predicate Valid() {
      |cdf| > 0 ==>
        && IsCdf(cdf)
        && |quant| == 1025
        && forall i :: 0 <= i < 1025 ==> quant[i] == Lower(cdf, i as real / 1024.0, 0)
    }

    /** Searching only between two neighbouring quantiles finds what the full search finds. */
    method Sample(u: real) returns (d: nat)
      requires Valid()
      ensures d == Degree(cdf, u)
    {
      if |cdf| == 0 {
        return 0;
      }
      if u <= 0.0 {
        return 1;
      }
      if u >= 1.0 {
        return |cdf|;
      }
      var i := (u * 1024.0).Floor;
      Bracket(cdf, i as real / 1024.0, u);
      Bracket(cdf, u, (i + 1) as real / 1024.0);
      var lo := Bisect(cdf, u, quant[i], quant[i + 1]);
      d := lo + 1;
    }
  }

  lemma Bracket(cdf: seq<real>, x: real, y: real)
    requires |cdf| > 0 && x <= y
    ensures Lower(cdf, x, 0) <= Lower(cdf, y, 0)
  {
  }

  method NewDegreeCdf(m: Libm, k: nat) returns (dc: DegreeCdf)
    ensures dc.Valid() && dc.cdf == Cdf(m, k)
  {
    var cdf := SolitonCdf(m, k);
    var quant := seq(1025, _ => 0);
    if |cdf| > 0 {
      CdfIsDistribution(m, k);
      for i := 0 to 1025
        invariant |quant| == 1025
        invariant forall j :: 0 <= j < i ==> quant[j] == Lower(cdf, j as real / 1024.0, 0)
      {
        var q := LowerBound(cdf, i as real / 1024.0);
        quant := quant[i := q];
      }
    }
    dc := DegreeCdf(cdf, quant);
  }
}
