/** Unsigned machine arithmetic spelled out on naturals: the bitwise operators the
    sources use, and what they mean as division and remainder. */
module Bits {
  /** 2^32, the number of values of a uint32_t. */
  const M32: nat := 0x1_0000_0000

  function Pow(b: nat, k: nat): (p: nat)
    ensures b > 0 ==> p > 0
  {
    if k == 0 then 1 else Pow(b, k - 1) * b
  }

  /** Bitwise `x & y`. */
  function And(x: nat, y: nat): nat {
    if x == 0 || y == 0 then 0
    else (if x % 2 == 1 && y % 2 == 1 then 1 else 0) + 2 * And(x / 2, y / 2)
  }

  /** Logical shift `x >> k`. */
  function Shr(x: nat, k: nat): nat {
    if k == 0 then x else Shr(x / 2, k - 1)
  }

  /** The residue of `x` in a uint32_t. */
  function U32(x: int): (r: nat)
    ensures r < M32
  {
    x % M32
  }

  predicate IsPow2(c: nat) {
    exists k: nat :: k <= c && c == Pow(2, k)
  }

  /** Splitting off the lowest bit before dividing by 2m. */
  lemma Halve(x: nat, m: nat)
    requires m > 0
    ensures x / (2 * m) == (x / 2) / m
    ensures x % (2 * m) == x % 2 + 2 * ((x / 2) % m)
  {
    var q, r := (x / 2) / m, (x / 2) % m;
    assert x / 2 == m * q + r;
    TwiceTimes(m, q);
    ModUnique(x, 2 * m, q, 2 * r + x % 2);
  }

  lemma TwiceTimes(m: int, q: int)
    ensures (2 * m) * q == 2 * (m * q)
  {
  }

  lemma ModUnique(x: int, m: nat, q: int, r: nat)
    requires m > 0 && 0 <= r < m && x == m * q + r
    ensures x / m == q && x % m == r
  {
    var d := q - x / m;
    assert m * d == x % m - r by {
      assert m * (q - x / m) == m * q - m * (x / m);
    }
    if d >= 1 {
      MulAtLeast(m, d);
    } else if d <= -1 {
      MulAtLeast(m, -d);
    }
  }

  lemma MulAtLeast(m: nat, d: int)
    requires d >= 1
    ensures m * d >= m
    ensures m * -d == -(m * d)
  {
    assert m * d == m * (d - 1) + m;
  }

  /** Masking with 2^k - 1 is reduction modulo 2^k. */
  lemma {:induction false} AndMask(x: nat, k: nat)
    ensures And(x, Pow(2, k) - 1) == x % Pow(2, k)
    decreases k
  {
    if k == 0 {
      assert x % 1 == 0;
    } else if x == 0 {
      ModUnique(0, Pow(2, k), 0, 0);
    } else {
      var m := Pow(2, k - 1);
      AndMask(x / 2, k - 1);
      Halve(x, m);
      hide Pow;
      LowBits(m);
    }
  }

  lemma LowBits(m: nat)
    requires m > 0
    ensures (2 * m - 1) / 2 == m - 1 && (2 * m - 1) % 2 == 1
  {
  }

  lemma {:induction false} ShrDiv(x: nat, k: nat)
    ensures Shr(x, k) == x / Pow(2, k)
    decreases k
  {
    if k > 0 {
      ShrDiv(x / 2, k - 1);
      Halve(x, Pow(2, k - 1));
    }
  }

  lemma {:induction false} Pow2Grows(k: nat)
    ensures k < Pow(2, k)
  {
    if k > 0 {
      Pow2Grows(k - 1);
    }
  }

  lemma {:induction false} PowAdd(b: nat, i: nat, j: nat)
    ensures Pow(b, i + j) == Pow(b, i) * Pow(b, j)
    decreases j
  {
    if j > 0 {
      PowAdd(b, i, j - 1);
      assert Pow(b, i + j) == Pow(b, i + (j - 1)) * b;
      MulAssoc(Pow(b, i), Pow(b, j - 1), b);
    }
  }

  lemma MulAssoc(x: int, y: int, z: int)
    ensures (x * y) * z == x * (y * z)
  {
  }

  lemma Pow2Values()
    ensures Pow(2, 6) == 0x40 && Pow(2, 8) == 0x100 && Pow(2, 32) == M32
  {
    assert Pow(2, 4) == 16;
    PowAdd(2, 4, 4);
    PowAdd(2, 8, 8);
    PowAdd(2, 16, 16);
    assert Pow(2, 6) == 4 * Pow(2, 4);
  }

  /** The power-of-two test of rte_ring_create, in 32 bits: besides the powers of two, it
      accepts 0. */
  lemma PowerOfTwoTest(c: nat)
    requires c < M32
    ensures And(U32(c - 1), c) == 0 <==> c == 0 || IsPow2(c)
  {
    if c > 0 {
      NonzeroTest(c);
      assert U32(c - 1) == c - 1;
    }
  }

  lemma {:induction false} NonzeroTest(c: nat)
    ensures c > 0 ==> (And(c - 1, c) == 0 <==> IsPow2(c))
    decreases c
  {
    if c == 1 {
      assert And(0, 1) == 0;
      assert 1 == Pow(2, 0);
    } else if c > 1 {
      NonzeroTest(c / 2);
      if c % 2 == 1 {
        forall k: nat | k <= c
          ensures c != Pow(2, k)
        {
          if k > 0 {
            assert Pow(2, k) == 2 * Pow(2, k - 1);
          }
        }
        AndSelf(c / 2);
        assert (c - 1) / 2 == c / 2;
      } else {
        assert (c - 1) / 2 == c / 2 - 1;
        assert And(c - 1, c) == 2 * And(c / 2 - 1, c / 2);
        if IsPow2(c) {
          var k: nat :| k <= c && c == Pow(2, k);
          assert k > 0 && c / 2 == Pow(2, k - 1);
          Pow2Grows(k - 1);
          assert IsPow2(c / 2);
        }
        if IsPow2(c / 2) {
          var k: nat :| k <= c / 2 && c / 2 == Pow(2, k);
          assert c == Pow(2, k + 1);
          assert IsPow2(c);
        }
      }
    }
  }

  lemma {:induction false} AndSelf(x: nat)
    ensures And(x, x) == x
  {
    if x > 0 {
      AndSelf(x / 2);
    }
  }

  /** A smaller power of two divides a larger one, so reducing first by the larger is harmless. */
  lemma ModMod(x: int, small: nat, big: nat, factor: nat)
    requires small > 0 && big == small * factor && factor > 0
    ensures big > 0 && (x % big) % small == x % small
  {
    assert big > 0;
    var q, r := x / big, x % big;
    var q2, r2 := r / small, r % small;
    assert x == big * q + r;
    assert r == small * q2 + r2;
    assert x == small * (factor * q + q2) + r2 by {
      assert small * (factor * q + q2) == small * factor * q + small * q2;
    }
    ModUnique(x, small, factor * q + q2, r2);
  }

  /** Testing one bit. */
  lemma {:induction false} AndBit(x: nat, k: nat)
    ensures And(x, Pow(2, k)) != 0 <==> x / Pow(2, k) % 2 == 1
    decreases k
  {
    if k == 0 {
      assert Pow(2, 0) == 1 && x / 1 == x;
    } else {
      AndBit(x / 2, k - 1);
      assert Pow(2, k) == 2 * Pow(2, k - 1);
      Halve(x, Pow(2, k - 1));
      if x == 0 {
        ModUnique(0, Pow(2, k), 0, 0);
      }
    }
  }

  /** Halving a bit mask brings in one more bit. */
  lemma NextBit(x: nat, m: nat)
    requires m > 0
    ensures x / m == 2 * (x / (2 * m)) + x / m % 2
  {
    var q := x / m;
    assert x == m * q + x % m;
    var h, b := q / 2, q % 2;
    assert m * q == (2 * m) * h + m * b;
    if b == 1 {
      assert m * b == m;
    } else {
      assert m * b == 0;
    }
    ModUnique(x, 2 * m, h, m * b + x % m);
  }

  /** The bits of x from bit k on. */
  function Top(x: nat, k: nat): nat {
    Shr(x, k)
  }

  lemma TopStep(x: nat, k: nat)
    requires k > 0
    ensures Top(x, k - 1) == 2 * Top(x, k) + if And(x, Pow(2, k - 1)) != 0 then 1 else 0
  {
    AndBit(x, k - 1);
    NextBit(x, Pow(2, k - 1));
    ShrDiv(x, k - 1);
    ShrDiv(x, k);
  }

  lemma TopBit(x: nat, k: nat)
    requires Pow(2, k) <= x < 2 * Pow(2, k)
    ensures Top(x, k) == 1
  {
    ShrDiv(x, k);
    ModUnique(x, Pow(2, k), 1, x - Pow(2, k));
  }

  lemma TopAll(x: nat)
    ensures Top(x, 0) == x
  {
  }
}
