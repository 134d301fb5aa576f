/** Arithmetic modulo a fixed number, in particular modulo 2^32: the facts about
    wrapping multiplication by an odd constant that the generator and the hash rely on. */
module Modular {

  const MODULUS: nat := 0x1_0000_0000

  type u32 = v: nat | v < 0x1_0000_0000

  /** Reduction modulo 2^32: the source's wrapping arithmetic. */
  function Wrap(x: int): (r: u32) {
    x % 0x1_0000_0000
  }

  lemma AtLeastOneLap(m: nat, e: int)
    ensures e > 0 ==> m * e >= m
    ensures e < 0 ==> m * e <= -1 * m
  {
    if e > 0 {
      assert m * e == m + m * (e - 1);
    } else if e < 0 {
      assert m * e == -1 * m + m * (e + 1);
    }
  }

  /** Multiplying by `b` keeps the order of `x` and `y`, and a gap becomes at least `b`. */
  lemma TimesKeepsOrder(x: int, y: int, b: nat)
    ensures x <= y ==> x * b <= y * b
    ensures x < y ==> x * b + b <= y * b
  {
    AtLeastOneLap(b, y - x);
    assert b * (y - x) == y * b - x * b;
  }

  lemma DivModUnique(x: int, m: nat, d: int, r: int)
    requires m > 0 && x == m * d + r && 0 <= r < m
    ensures x / m == d && x % m == r
  {
    var e := x / m - d;
    assert x == m * (x / m) + x % m;
    assert m * e == r - x % m;
    AtLeastOneLap(m, e);
  }

  lemma ModAddMultiple(x: int, t: int, m: nat)
    requires m > 0
    ensures (m * t + x) % m == x % m
  {
    var r, d := x % m, x / m;
    assert m * t + x == m * (t + d) + r;
    DivModUnique(m * t + x, m, t + d, r);
  }

  lemma ModOfMultiple(x: int, n: nat, q: nat, m: nat)
    requires n > 0 && q > 0 && n * q == m
    ensures m > 0 && x % m % n == x % n
  {
    var t := x / m;
    assert x == m * t + x % m;
    assert m * t == n * (q * t);
    ModAddMultiple(x % m, q * t, n);
  }

  lemma CongruentDifference(a: int, b: int, m: nat) returns (t: int)
    requires m > 0 && a % m == b % m
    ensures a - b == m * t
  {
    t := a / m - b / m;
    assert a == m * (a / m) + a % m && b == m * (b / m) + b % m;
  }

  lemma CongruentProducts(a: int, b: int, c: int, m: nat)
    requires m > 0 && a % m == b % m
    ensures a * c % m == b * c % m
  {
    var t := CongruentDifference(a, b, m);
    calc {
      a * c;
      (m * t + b) * c;
      (m * t) * c + b * c;
      m * (t * c) + b * c;
    }
    ModAddMultiple(b * c, t * c, m);
  }

  /** `c` and `d` are mutually inverse modulo `m`. */
  ghost predicate Inverse(c: int, d: int, m: nat) {
    exists lap {:trigger lap * m} :: c * d == 1 + lap * m
  }

  /** Multiplying by `c` and then by its inverse changes nothing modulo `m`. */
  lemma CancelInverse(x: int, c: int, d: int, m: nat)
    requires m > 0 && Inverse(c, d, m)
    ensures (x * c % m) * d % m == x % m
  {
    var lap :| c * d == 1 + lap * m;
    var q := x * c / m;
    assert x * c == m * q + x * c % m;
    Regroup(x, c, d, m, lap, q, x * c % m);
    ModAddMultiple(x, x * lap - q * d, m);
  }

  lemma Regroup(x: int, c: int, d: int, m: int, lap: int, q: int, r: int)
    requires c * d == 1 + lap * m && x * c == m * q + r
    ensures r * d == m * (x * lap - q * d) + x
  {
    calc {
      r * d;
      (x * c - m * q) * d;
      x * (c * d) - m * q * d;
      x * (1 + lap * m) - m * q * d;
      m * (x * lap - q * d) + x;
    }
  }

  /** So multiplication by `c` is injective modulo any divisor of `m`. */
  lemma CancelMultiplier(e: int, c: int, d: int, n: nat, t: int, q: nat, m: nat) returns (f: int)
    requires e * c == n * t && n * q == m && Inverse(c, d, m)
    ensures e == n * f
  {
    var lap :| c * d == 1 + lap * m;
    f := t * d - e * lap * q;
    calc {
      n * (t * d);
      (n * t) * d;
      (e * c) * d;
      e * (1 + lap * m);
      e + (e * lap) * (n * q);
      e + n * (e * lap * q);
    }
  }

  lemma WrapAdd(x: int, y: int)
    ensures Wrap(Wrap(x) + y) == Wrap(x + y)
  {
  }

  /** A wrapping product by an odd constant and the product by its inverse undo each other. */
  lemma WrapInverse(v: u32, c: nat, d: nat)
    requires Inverse(c, d, MODULUS)
    ensures Wrap(Wrap(v * c) * d) == v
  {
    CancelInverse(v, c, d, MODULUS);
  }

  /** The remainder, by repeated subtraction. */
  function Rem(x: nat, n: nat): (r: nat)
    requires n > 0
    ensures r < n
  {
    if x < n then x else Rem(x - n, n)
  }

  lemma {:induction false} RemIsMod(x: nat, n: nat)
    requires n > 0
    ensures Rem(x, n) == x % n
  {
    if x >= n {
      RemIsMod(x - n, n);
      ModAddMultiple(x - n, 1, n);
    } else {
      DivModUnique(x, n, 0, x);
    }
  }
}
