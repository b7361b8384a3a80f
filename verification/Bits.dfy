/** Bitwise AND on naturals, powers of two, and what they mean for wrapping ring indices. */
module Bits {
  import opened Bytes

  function And(x: nat, y: nat): (z: nat) {
    if x == 0 || y == 0 then 0 else 2 * And(x / 2, y / 2) + (if x % 2 == 1 && y % 2 == 1 then 1 else 0)
  }

  function Pow2(k: nat): (p: nat)
    ensures p > 0
  {
    if k == 0 then 1 else 2 * Pow2(k - 1)
  }

  ghost predicate IsPowerOfTwo(c: nat) {
    exists k: nat :: c == Pow2(k)
  }

  lemma {:induction false} AndSelf(x: nat)
    ensures And(x, x) == x
  {
    if x > 0 {
      AndSelf(x / 2);
    }
  }

  /** The bit trick behind every geometry check: c & (c-1) is zero exactly for powers of two. */
  lemma {:induction false} PowerOfTwoTest(c: nat)
    requires c > 0
    ensures And(c, c - 1) == 0 <==> IsPowerOfTwo(c)
  {
    if c == 1 {
      assert Pow2(0) == 1;
    } else if c % 2 == 0 {
      PowerOfTwoTest(c / 2);
      EvenAnd(c);
      EvenPower(c);
    } else {
      OddAnd(c);
      OddPower(c);
    }
  }

  lemma EvenAnd(c: nat)
    requires c > 0 && c % 2 == 0
    ensures And(c, c - 1) == 2 * And(c / 2, c / 2 - 1)
  {
    assert (c - 1) / 2 == c / 2 - 1;
  }

  lemma EvenPower(c: nat)
    requires c > 0 && c % 2 == 0
    ensures IsPowerOfTwo(c) <==> IsPowerOfTwo(c / 2)
  {
    if IsPowerOfTwo(c / 2) {
      var k: nat :| c / 2 == Pow2(k);
      assert c == Pow2(k + 1);
    }
    if IsPowerOfTwo(c) {
      var k: nat :| c == Pow2(k);
      assert c / 2 == Pow2(k - 1);
    }
  }

  lemma OddAnd(c: nat)
    requires c > 1 && c % 2 == 1
    ensures And(c, c - 1) > 0
  {
    AndSelf(c / 2);
    assert (c - 1) / 2 == c / 2;
  }

  lemma OddPower(c: nat)
    requires c > 1 && c % 2 == 1
    ensures !IsPowerOfTwo(c)
  {
    forall k: nat ensures c != Pow2(k) {
      assert k > 0 ==> Pow2(k) == 2 * Pow2(k - 1);
    }
  }

  lemma MulBounds(m: int, d: int)
    requires m > 0
    ensures d >= 1 ==> m * d >= m
    ensures d <= -1 ==> m * d <= -m
  {}

  lemma ModUnique(x: int, m: int, q: int, r: int)
    requires m > 0 && x == m * q + r && 0 <= r < m
    ensures x % m == r && x / m == q
  {
    var d := q - x / m;
    assert m * d == x % m - r;
    MulBounds(m, d);
  }

  lemma HalveMod(x: nat, p: nat)
    requires p > 0
    ensures x % (2 * p) == 2 * (x / 2 % p) + x % 2
  {
    var half := x / 2;
    assert half == p * (half / p) + half % p;
    assert (2 * p) * (half / p) == 2 * (p * (half / p));
    ModUnique(x, 2 * p, half / p, 2 * (half % p) + x % 2);
  }

  lemma AndOdd(x: nat, y: nat)
    ensures And(x, 2 * y + 1) == 2 * And(x / 2, y) + x % 2
  {
    assert (2 * y + 1) / 2 == y && (2 * y + 1) % 2 == 1;
  }

  lemma MaskStep(x: nat, p: nat)
    requires p > 0 && And(x / 2, p - 1) == x / 2 % p
    ensures And(x, 2 * p - 1) == x % (2 * p)
  {
    hide And;
    assert 2 * (p - 1) + 1 == 2 * p - 1;
    AndOdd(x, p - 1);
    HalveMod(x, p);
  }

  /** Masking with 2^k - 1 is reduction modulo 2^k. */
  lemma {:induction false} MaskIsMod(x: nat, k: nat)
    ensures And(x, Pow2(k) - 1) == x % Pow2(k)
  {
    if k > 0 {
      MaskIsMod(x / 2, k - 1);
      MaskStep(x, Pow2(k - 1));
    }
  }

  lemma {:induction false} Pow2Add(a: nat, b: nat)
    ensures Pow2(a + b) == Pow2(a) * Pow2(b)
  {
    if a > 0 {
      Pow2Add(a - 1, b);
      assert Pow2(a) == 2 * Pow2(a - 1) && Pow2(a + b) == 2 * Pow2(a - 1 + b);
      hide Pow2;
      DoubleProduct(Pow2(a - 1), Pow2(b));
    }
  }

  lemma DoubleProduct(x: nat, y: nat)
    ensures (2 * x) * y == 2 * (x * y)
  {}

  lemma {:induction false} Pow2Monotone(a: nat, b: nat)
    requires a <= b
    ensures Pow2(a) <= Pow2(b)
  {
    if a < b { Pow2Monotone(a, b - 1); }
  }

  lemma Pow2Small()
    ensures Pow2(4) == 0x10 && Pow2(32) == 2 * Pow2(31)
  {}

  lemma Pow2Values()
    ensures Pow2(31) == 0x8000_0000 && Pow2(32) == 0x1_0000_0000 && Pow2(64) == TWO_64
  {
    Pow2Small();
    hide Pow2;
    Pow2Add(4, 4);
    Pow2Add(8, 8);
    Pow2Add(16, 16);
    Pow2Add(32, 32);
  }

  /** A power of two that fits 32 bits divides the 64-bit index space. */
  lemma PowerOfTwoDivides(c: nat) returns (quotient: nat)
    requires IsPowerOfTwo(c) && c < 0x1_0000_0000
    ensures c * quotient == TWO_64 && c <= 0x8000_0000
  {
    Pow2Values();
    var k: nat :| c == Pow2(k);
    if k >= 32 { Pow2Monotone(32, k); }
    Pow2Monotone(k, 31);
    Pow2Add(k, 64 - k);
    quotient := Pow2(64 - k);
  }

  /** Reducing a 64-bit wrapped index gives the same slot as the unbounded index. */
  lemma WrapKeepsSlot(h: nat, c: nat, quotient: nat)
    requires c > 0 && c * quotient == TWO_64
    ensures (h % TWO_64) % c == h % c
  {
    var w := h % TWO_64;
    assert h == TWO_64 * (h / TWO_64) + w;
    var r := w % c;
    assert w == c * (w / c) + r;
    var q := quotient * (h / TWO_64) + w / c;
    assert TWO_64 * (h / TWO_64) == c * (quotient * (h / TWO_64));
    assert c * q == c * (quotient * (h / TWO_64)) + c * (w / c);
    ModUnique(h, c, q, r);
  }

  /** Slot positions survive index wrap for every index exactly when the capacity divides 2^64. */
  lemma WrapSafeIff(c: nat)
    requires c > 0
    ensures (forall h: nat :: (h % TWO_64) % c == h % c) <==> TWO_64 % c == 0
  {
    if TWO_64 % c == 0 {
      forall h: nat ensures (h % TWO_64) % c == h % c {
        WrapKeepsSlot(h, c, TWO_64 / c);
      }
    }
    if forall h: nat :: (h % TWO_64) % c == h % c {
      var top: nat := TWO_64;
      assert (top % TWO_64) % c == top % c;
      ModUnique(0, c, 0, 0);
    }
  }

  /** Distinct indices less than c apart fall into distinct slots. */
  lemma NearIndicesDiffer(a: nat, b: nat, c: nat)
    requires c > 0 && a < b < a + c
    ensures a % c != b % c
  {
    var d := b / c - a / c;
    assert a == c * (a / c) + a % c && b == c * (b / c) + b % c;
    assert b - a == c * d + (b % c - a % c);
    MulBounds(c, d);
  }

  /** The wrapped difference of two 64-bit counters recovers their true distance. */
  lemma WrappedDistance(h: nat, t: nat)
    requires t <= h && h - t < TWO_64
    ensures (h % TWO_64 - t % TWO_64) % TWO_64 == h - t
  {
    var q := t / TWO_64 - h / TWO_64;
    ModUnique(h % TWO_64 - t % TWO_64, TWO_64, q, h - t);
  }

  /** A commit lengthens the wrapped distance by one; a release shortens it by one. */
  lemma DistanceSteps(h: u64, t: u64)
    ensures (h - t) % TWO_64 < TWO_64 - 1 ==> ((h + 1) % TWO_64 - t) % TWO_64 == (h - t) % TWO_64 + 1
    ensures (h - t) % TWO_64 > 0 ==> (h - (t + 1) % TWO_64) % TWO_64 == (h - t) % TWO_64 - 1
  {
    WrapOf(h, t);
    WrapOf((h + 1) % TWO_64, t);
    WrapOf(h, (t + 1) % TWO_64);
  }

  lemma WrapOf(h: u64, t: u64)
    ensures (h - t) % TWO_64 == if h >= t then h - t else h - t + TWO_64
  {}
}
