/**
 * Bitwise operations on non-negative integers, defined bit by bit: the and, or, shifts and
 * masks that the Fenwick tree and the vector encoding use.
 */
module Bits {

  /** The bitwise and of two non-negative integers. */
  function BitAnd(a: nat, b: nat): (r: nat)
    ensures r <= a && r <= b
  {
    if a == 0 || b == 0 then 0
    else 2 * BitAnd(a / 2, b / 2) + (if a % 2 == 1 && b % 2 == 1 then 1 else 0)
  }

  /** The bitwise or of two non-negative integers. */
  function BitOr(a: nat, b: nat): (r: nat)
    ensures r >= a && r >= b
    decreases a + b
  {
    if a == 0 then b
    else if b == 0 then a
    else 2 * BitOr(a / 2, b / 2) + (if a % 2 == 1 || b % 2 == 1 then 1 else 0)
  }

  lemma {:induction false} BitAndSelf(a: nat)
    ensures BitAnd(a, a) == a
  {
    if a > 0 {
      BitAndSelf(a / 2);
    }
  }

  lemma {:induction false} BitOrSelf(a: nat)
    ensures BitOr(a, a) == a
  {
    if a > 0 {
      BitOrSelf(a / 2);
    }
  }

  /** 2 to the n. */
  function Pow2(n: nat): (r: nat)
    ensures r >= 1
  {
    if n == 0 then 1 else 2 * Pow2(n - 1)
  }

  lemma {:induction false} PowMonotone(a: nat, b: nat)
    requires a <= b
    ensures Pow2(a) <= Pow2(b)
  {
    if a < b {
      PowMonotone(a, b - 1);
    }
  }

  /** Masking with k one bits keeps the value modulo 2^k. */
  lemma {:induction false} LowBits(p: nat, k: nat)
    ensures BitAnd(p, Pow2(k) - 1) == p % Pow2(k)
  {
    if k > 0 && p > 0 {
      var h, m := Pow2(k - 1), Pow2(k);
      calc {
        BitAnd(p, m - 1);
      == { OddMask(h); AndOdd(p, m - 1, h - 1); }
        2 * BitAnd(p / 2, h - 1) + p % 2;
      == { LowBits(p / 2, k - 1); }
        2 * ((p / 2) % h) + p % 2;
      == { ModDouble(p, h, m); }
        p % m;
      }
    } else if k == 0 {
      ModUnique(p, Pow2(k), p, 0);
    } else {
      ModUnique(p, Pow2(k), 0, 0);
    }
  }

  /** 2h - 1 is odd, and halving it leaves h - 1. */
  lemma OddMask(h: nat)
    requires h >= 1
    ensures (2 * h - 1) / 2 == h - 1 && (2 * h - 1) % 2 == 1
  {
    ModUnique(2 * h - 1, 2, h - 1, 1);
  }

  /** And-ing with an odd mask keeps the last bit and ands the rest. */
  lemma AndOdd(p: nat, m: nat, half: nat)
    requires p > 0 && m % 2 == 1 && m / 2 == half
    ensures BitAnd(p, m) == 2 * BitAnd(p / 2, half) + p % 2
  {
  }

  /** The remainder modulo 2h, from the remainder of the half modulo h and the last bit. */
  lemma ModDouble(p: nat, h: nat, m: nat)
    requires h > 0 && m == 2 * h
    ensures p % m == 2 * ((p / 2) % h) + p % 2
  {
    var q, r := (p / 2) / h, (p / 2) % h;
    assert p == m * q + (2 * r + p % 2);
    ModUnique(p, m, q, 2 * r + p % 2);
  }

  /** The remainder is the unique r in [0, d) with p = d q + r. */
  lemma ModUnique(p: int, d: int, q: int, r: int)
    requires d > 0 && 0 <= r < d && p == d * q + r
    ensures p % d == r
  {
    var q', r' := p / d, p % d;
    assert d * q' + r' == d * q + r;
    if q > q' {
      MulAtLeast(d, q - q');
      assert false;
    } else if q < q' {
      MulAtLeast(d, q' - q);
      assert false;
    }
  }

  /** A positive multiple of d is at least d. */
  lemma {:induction false} MulAtLeast(d: int, n: int)
    requires d > 0 && n >= 1
    ensures d * n >= d
    decreases n
  {
    if n > 1 {
      MulAtLeast(d, n - 1);
      assert d * n == d * (n - 1) + d;
    }
  }

  /** Or-ing a value shifted left by k with one below 2^k is adding them. */
  lemma {:induction false} DisjointOr(a: nat, b: nat, k: nat)
    requires b < Pow2(k)
    ensures BitOr(a * Pow2(k), b) == a * Pow2(k) + b
  {
    if k > 0 && a > 0 && b > 0 {
      var h := Pow2(k - 1);
      assert a * Pow2(k) == 2 * (a * h);
      DisjointOr(a, b / 2, k - 1);
      assert (a * Pow2(k)) / 2 == a * h && (a * Pow2(k)) % 2 == 0;
    }
  }

  /** 2^32. */
  lemma Pow2Of32()
    ensures Pow2(32) == 0x1_0000_0000
  {
    assert Pow2(4) == 16;
    assert Pow2(8) == 256 by { assert Pow2(6) == 64; }
    assert Pow2(12) == 4096 by { assert Pow2(10) == 1024; }
    assert Pow2(16) == 65536 by { assert Pow2(14) == 16384; }
    assert Pow2(20) == 0x10_0000 by { assert Pow2(18) == 0x4_0000; }
    assert Pow2(24) == 0x100_0000 by { assert Pow2(22) == 0x40_0000; }
    assert Pow2(28) == 0x1000_0000 by { assert Pow2(26) == 0x400_0000; }
    assert Pow2(30) == 0x4000_0000;
  }
}
