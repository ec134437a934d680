/**
 The rounding macros of include/stdlib.h, which mask with `~(b - 1)`, and the power-of-two test of the allocator.
 Bitwise `&` is defined on naturals, 32-bit wrap-around is written out.
 */
module Rounding {
  const WORD := 0x1_0000_0000

  function Pow2(k: nat): (p: nat)
    ensures p >= 1
  {
    if k == 0 then 1 else 2 * Pow2(k - 1)
  }

  ghost predicate IsPow2(b: int) {
    exists k: nat :: b == Pow2(k)
  }

  /** Bitwise and. */
  function And(x: nat, y: nat): nat {
    if x == 0 || y == 0 then 0 else (x % 2) * (y % 2) + 2 * And(x / 2, y / 2)
  }

  /** `ROUNDUP(a, b)` on 32-bit words. */
  function RoundUp(a: nat, b: nat): nat
    requires 0 < b <= WORD
  {
    And((a + (b - 1)) % WORD, WORD - b)
  }

  /** `ROUNDDOWN(a, b)` on 32-bit words. */
  function RoundDown(a: nat, b: nat): nat
    requires 0 < b <= WORD
  {
    And(a, WORD - b)
  }

  lemma {:induction false} AndOnes(a: nat, n: nat)
    requires a < Pow2(n)
    ensures And(a, Pow2(n) - 1) == a
  {
    if n == 0 || a == 0 {
    } else {
      assert Pow2(n) - 1 == 2 * (Pow2(n - 1) - 1) + 1;
      AndOnes(a / 2, n - 1);
    }
  }

  lemma ModTwice(a: nat, m: nat)
    requires m > 0
    ensures a % (2 * m) == 2 * ((a / 2) % m) + a % 2
  {
    var q, r := (a / 2) / m, (a / 2) % m;
    assert a / 2 == m * q + r;
    assert a == (2 * m) * q + (2 * r + a % 2);
    DivisionUnique(a, 2 * m, q, 2 * r + a % 2);
  }

  lemma DivisionUnique(a: int, m: int, q: int, r: int)
    requires 0 <= r < m && a == m * q + r
    ensures a % m == r && a / m == q
  {
    var q' := a / m;
    if q > q' {
      MulStep(m, q, q');
    } else if q < q' {
      MulStep(m, q', q);
    }
  }

  lemma Associate(x: int, y: int, z: int)
    ensures x * (y * z) == x * y * z
  {
  }

  lemma {:induction false} MulStep(m: int, x: int, y: int)
    requires m > 0 && x > y
    ensures m * x >= m * y + m
    decreases x - y
  {
    assert m * x == m * (x - 1) + m;
    if x == y + 1 {
    } else {
      MulStep(m, x - 1, y);
    }
  }

  /** Masking off the low `k` bits of an `n`-bit number subtracts its remainder modulo 2^k. */
  lemma {:induction false} AndMask(a: nat, n: nat, k: nat)
    requires k <= n && a < Pow2(n)
    ensures Pow2(n) >= Pow2(k)
    ensures And(a, Pow2(n) - Pow2(k)) == a - a % Pow2(k)
  {
    if k == 0 {
      AndOnes(a, n);
    } else {
      hide And;
      AndMask(a / 2, n - 1, k - 1);
      ModTwice(a, Pow2(k - 1));
      var y := Pow2(n - 1) - Pow2(k - 1);
      assert Pow2(n) - Pow2(k) == 2 * y;
      AndEven(a, y);
    }
  }

  lemma AndEven(a: nat, y: nat)
    ensures And(a, 2 * y) == 2 * And(a / 2, y)
  {
    assert 2 * y % 2 == 0 && 2 * y / 2 == y;
  }

  lemma {:induction false} AndBound(x: nat, y: nat)
    ensures And(x, y) <= y
  {
    if x == 0 || y == 0 {
    } else {
      AndBound(x / 2, y / 2);
    }
  }

  /** `b & (b - 1)` is zero exactly for the powers of two. */
  lemma {:induction false} PowerTest(b: nat)
    requires b > 0
    ensures And(b, b - 1) == 0 <==> IsPow2(b)
  {
    if b == 1 {
      assert b == Pow2(0);
    } else if b % 2 == 1 {
      AndSelf(b / 2);
      assert (b - 1) / 2 == b / 2;
      forall k: nat ensures b != Pow2(k) {
      }
    } else {
      PowerTest(b / 2);
      assert (b - 1) / 2 == b / 2 - 1;
      if IsPow2(b / 2) {
        var k: nat :| b / 2 == Pow2(k);
        assert b == Pow2(k + 1);
      }
      if IsPow2(b) {
        var k: nat :| b == Pow2(k);
        assert b / 2 == Pow2(k - 1);
      }
    }
  }

  lemma {:induction false} AndSelf(a: nat)
    ensures And(a, a) == a
  {
    if a == 0 {
    } else {
      AndSelf(a / 2);
      assert (a % 2) * (a % 2) == a % 2;
      assert a == a % 2 + 2 * (a / 2);
    }
  }

  lemma PowerLess(b: nat) returns (k: nat)
    requires IsPow2(b) && b <= WORD
    ensures k <= 32 && b == Pow2(k) && WORD == Pow2(32)
  {
    k :| b == Pow2(k);
    assert Pow2(32) == WORD by {
      assert Pow2(8) == 256;
      assert Pow2(16) == 65536;
      assert Pow2(24) == 0x100_0000;
    }
    if k > 32 {
      PowMonotone(33, k);
    }
  }

  lemma {:induction false} PowMonotone(j: nat, k: nat)
    requires j <= k
    ensures Pow2(j) <= Pow2(k)
  {
    if j == k {
    } else {
      PowMonotone(j, k - 1);
    }
  }

  lemma MultipleBelow(x: nat, b: nat)
    requires b > 0
    ensures (x - x % b) % b == 0 && x - b < x - x % b <= x
  {
    DivisionUnique(x - x % b, b, x / b, 0);
  }

  lemma NoWrap(x: nat)
    requires x < WORD
    ensures x % WORD == x
  {
  }

  /** `ROUNDUP` to a power of two is the least multiple at or above `a`, unless the addition wraps. */
  lemma RoundUpLeast(a: nat, b: nat)
    requires IsPow2(b) && a + b <= WORD
    ensures RoundUp(a, b) % b == 0 && a <= RoundUp(a, b) < a + b
  {
    hide And, Pow2, IsPow2;
    var k := PowerLess(b);
    var x := a + (b - 1);
    NoWrap(x);
    AndMask(x, 32, k);
    MultipleBelow(x, b);
    assert RoundUp(a, b) == x - x % b;
  }

  /** `ROUNDDOWN` to a power of two is the greatest multiple at or below `a`. */
  lemma RoundDownGreatest(a: nat, b: nat)
    requires IsPow2(b) && a < WORD && b <= WORD
    ensures RoundDown(a, b) % b == 0 && a - b < RoundDown(a, b) <= a
  {
    var k := PowerLess(b);
    AndMask(a, 32, k);
    MultipleBelow(a, b);
  }

  /** Four, sixteen and the page size are powers of two. */
  lemma SmallPowers()
    ensures IsPow2(4) && IsPow2(16) && IsPow2(4096)
  {
    assert Pow2(2) == 4;
    assert Pow2(4) == 16;
    assert Pow2(8) == 256;
    assert Pow2(12) == 4096;
  }

  /** A power of two of at least 16 is a multiple of 16. */
  lemma PowMultiple(b: nat)
    requires IsPow2(b) && b >= 16
    ensures b % 16 == 0
  {
    var k: nat :| b == Pow2(k);
    assert Pow2(3) == 8;
    if k < 4 {
      PowMonotone(k, 3);
    } else {
      assert Pow2(k) == 16 * Pow2(k - 4) by {
        assert Pow2(k) == 2 * Pow2(k - 1) && Pow2(k - 1) == 2 * Pow2(k - 2);
        assert Pow2(k - 2) == 2 * Pow2(k - 3) && Pow2(k - 3) == 2 * Pow2(k - 4);
      }
    }
  }
}
