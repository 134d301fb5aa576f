/** Numbers as little-endian byte strings of a fixed width. */
module LittleEndian {
  function Power256(w: nat): (r: nat)
    ensures r > 0
  {
    if w == 0 then 1 else 256 * Power256(w - 1)
  }

  function ToBytes(n: nat, w: nat): (r: seq<bv8>)
    ensures |r| == w
  {
    if w == 0 then [] else [(n % 256) as bv8] + ToBytes(n / 256, w - 1)
  }

  function FromBytes(s: seq<bv8>): nat {
    if s == [] then 0 else s[0] as nat + 256 * FromBytes(s[1..])
  }

  /* ---------- one byte: every number below 256 is some byte ---------- */

  function Digit(on: bool, weight: nat): nat {
    if on then weight else 0
  }

  function Mask(on: bool, bit: bv8): bv8 {
    if on then bit else 0
  }

  lemma Assemble(p0: bool, p1: bool, p2: bool, p3: bool, p4: bool, p5: bool, p6: bool, p7: bool) returns (b: bv8)
    ensures b as nat == Digit(p0, 1) + Digit(p1, 2) + Digit(p2, 4) + Digit(p3, 8)
                        + Digit(p4, 16) + Digit(p5, 32) + Digit(p6, 64) + Digit(p7, 128)
  {
    b := Mask(p0, 1) | Mask(p1, 2) | Mask(p2, 4) | Mask(p3, 8) | Mask(p4, 16) | Mask(p5, 32) | Mask(p6, 64) | Mask(p7, 128);
  }

  lemma Nibble(n: nat, unit: nat) returns (p: bool, q: bool, r: bool, t: bool)
    requires n < 16 && (unit == 1 || unit == 16)
    ensures n * unit == Digit(p, unit) + Digit(q, 2 * unit) + Digit(r, 4 * unit) + Digit(t, 8 * unit)
  {
    p, q, r, t := n % 2 == 1, n / 2 % 2 == 1, n / 4 % 2 == 1, n / 8 == 1;
  }

  lemma EveryByte(n: nat) returns (b: bv8)
    requires n < 256
    ensures b as nat == n
  {
    hide Digit;
    var p0, p1, p2, p3 := Nibble(n % 16, 1);
    var p4, p5, p6, p7 := Nibble(n / 16, 16);
    b := Assemble(p0, p1, p2, p3, p4, p5, p6, p7);
  }

  lemma ByteOf(b: bv8, n: nat)
    requires b as nat == n
    ensures n < 256 && n as bv8 == b
  {
  }

  lemma ByteBack(n: nat)
    requires n < 256
    ensures (n as bv8) as nat == n
  {
    var b := EveryByte(n);
    ByteOf(b, n);
  }

  /* ---------- numbers of several bytes ---------- */

  lemma {:induction false} FromToBytes(n: nat, w: nat)
    requires n < Power256(w)
    ensures FromBytes(ToBytes(n, w)) == n
  {
    if w > 0 {
      ByteBack(n % 256);
      FromToBytes(n / 256, w - 1);
      assert ToBytes(n, w)[1..] == ToBytes(n / 256, w - 1);
    }
  }

  lemma {:induction false} ToFromBytes(s: seq<bv8>)
    ensures FromBytes(s) < Power256(|s|) && ToBytes(FromBytes(s), |s|) == s
  {
    if s != [] {
      ToFromBytes(s[1..]);
      ByteOf(s[0], s[0] as nat);
      LowDigit(s[0] as nat, FromBytes(s[1..]));
    }
  }

  lemma LowDigit(b: nat, rest: nat)
    requires b < 256
    ensures (b + 256 * rest) % 256 == b && (b + 256 * rest) / 256 == rest
  {
  }

  lemma Powers()
    ensures Power256(1) == 256 && Power256(2) == 0x1_0000 && Power256(4) == 0x1_0000_0000
  {
    assert Power256(3) == 256 * Power256(2);
  }

  /* ---------- two and four bytes at an offset ---------- */

  function Le16(s: seq<bv8>, i: nat): nat
    requires i + 2 <= |s|
  {
    s[i] as nat + 0x100 * (s[i + 1] as nat)
  }

  function Le32(s: seq<bv8>, i: nat): nat
    requires i + 4 <= |s|
  {
    s[i] as nat + 0x100 * (s[i + 1] as nat) + 0x1_0000 * (s[i + 2] as nat) + 0x100_0000 * (s[i + 3] as nat)
  }

  lemma SliceOfSlice(s: seq<bv8>, a: nat, b: nat, i: nat, j: nat)
    requires a <= b <= |s| && i <= j <= b - a
    ensures s[a..b][i..j] == s[a + i..a + j]
  {
    var t, u, v := s[a..b], s[a..b][i..j], s[a + i..a + j];
    forall m | 0 <= m < j - i ensures u[m] == v[m] {
      assert u[m] == t[i + m] == s[a + (i + m)] == v[m];
    }
    assert u == v;
  }

  lemma Read16(s: seq<bv8>, i: nat)
    requires i + 2 <= |s|
    ensures FromBytes(s[i..i + 2]) == Le16(s, i)
  {
    var t := s[i..i + 2];
    assert FromBytes(t[1..]) == t[1] as nat;
  }

  lemma Read32(s: seq<bv8>, i: nat)
    requires i + 4 <= |s|
    ensures FromBytes(s[i..i + 4]) == Le32(s, i)
  {
    var t := s[i..i + 4];
    assert FromBytes(t[3..]) == t[3] as nat;
    assert t[2..][1..] == t[3..] && t[1..][1..] == t[2..];
    assert FromBytes(t[2..]) == t[2] as nat + 256 * FromBytes(t[3..]);
    assert FromBytes(t[1..]) == t[1] as nat + 256 * FromBytes(t[2..]);
  }
}
