/**
  Unsigned machine words as naturals, with the bitwise operators of C defined one bit at a time.

  The memory-management code mixes shift-and-mask expressions with ordinary arithmetic on the same
  values.  Defining `&` and `|` by recursion on the binary representation keeps both views in one
  type; the lemmas below say when a bitwise expression equals an arithmetic one.
 */
module Bits {

  const TWO32: nat := 0x1_0000_0000
  const TWO64: nat := 0x1_0000_0000_0000_0000

  type Word = w: nat | w < TWO32
  type Word64 = w: nat | w < TWO64

  function And(x: nat, y: nat): nat {
    if x == 0 || y == 0 then 0
    else (if x % 2 == 1 && y % 2 == 1 then 1 else 0) + 2 * And(x / 2, y / 2)
  }

  function Or(x: nat, y: nat): nat {
    if x == 0 then y
    else if y == 0 then x
    else (if x % 2 == 1 || y % 2 == 1 then 1 else 0) + 2 * Or(x / 2, y / 2)
  }

  function Pow2(k: nat): (r: nat)
    ensures 0 < r
  {
    if k == 0 then 1 else 2 * Pow2(k - 1)
  }

  lemma {:induction false} Pow2Sum(j: nat, k: nat)
    ensures Pow2(j + k) == Pow2(j) * Pow2(k)
  {
    if k != 0 {
      Pow2Sum(j, k - 1);
      assert Pow2(j + k) == 2 * Pow2(j + (k - 1));
    }
  }

  lemma Pow2Values()
    ensures Pow2(5) == 32 && Pow2(10) == 0x400 && Pow2(12) == 0x1000 && Pow2(22) == 0x40_0000
    ensures Pow2(32) == TWO32
  {
    Pow2Sum(5, 5);
    Pow2Sum(2, 10);
    Pow2Sum(10, 12);
    Pow2Sum(10, 22);
  }

  /** Bit `k` of `x`. */
  predicate Bit(x: nat, k: nat) {
    if k == 0 then x % 2 == 1 else Bit(x / 2, k - 1)
  }

  // ---------- What one bit of a result is ----------

  lemma {:induction false} BitZero(k: nat)
    ensures !Bit(0, k)
  {
    if k != 0 { BitZero(k - 1); }
  }

  lemma {:induction false} BitOfAnd(x: nat, y: nat, k: nat)
    ensures Bit(And(x, y), k) <==> Bit(x, k) && Bit(y, k)
    decreases k
  {
    BitZero(k);
    if x != 0 && y != 0 && k != 0 { BitOfAnd(x / 2, y / 2, k - 1); }
  }

  lemma {:induction false} BitOfOr(x: nat, y: nat, k: nat)
    ensures Bit(Or(x, y), k) <==> Bit(x, k) || Bit(y, k)
    decreases k
  {
    BitZero(k);
    if x != 0 && y != 0 && k != 0 { BitOfOr(x / 2, y / 2, k - 1); }
  }

  lemma {:induction false} BitOfPow2(j: nat, k: nat)
    ensures Bit(Pow2(j), k) <==> j == k
  {
    if k == 0 {
    } else if j == 0 {
      BitZero(k - 1);
    } else {
      BitOfPow2(j - 1, k - 1);
    }
  }

  lemma {:induction false} BitOfOnes(n: nat, k: nat)
    ensures Bit(Pow2(n) - 1, k) <==> k < n
  {
    if n == 0 {
      BitZero(k);
    } else if k != 0 {
      assert (Pow2(n) - 1) / 2 == Pow2(n - 1) - 1;
      BitOfOnes(n - 1, k - 1);
    }
  }

  lemma {:induction false} NoBitAbove(n: nat, x: nat, k: nat)
    requires x < Pow2(n) && n <= k
    ensures !Bit(x, k)
  {
    if n == 0 { BitZero(k); } else { NoBitAbove(n - 1, x / 2, k - 1); }
  }

  /** `~x` on an n-bit word. */
  lemma {:induction false} BitOfComplement(n: nat, x: nat, k: nat)
    requires x < Pow2(n)
    ensures Bit(Pow2(n) - 1 - x, k) <==> k < n && !Bit(x, k)
  {
    if n == 0 {
      BitZero(k);
    } else if k != 0 {
      assert (Pow2(n) - 1 - x) / 2 == Pow2(n - 1) - 1 - x / 2;
      BitOfComplement(n - 1, x / 2, k - 1);
    }
  }

  /** Two n-bit words with the same bits are equal. */
  lemma {:induction false} SameBits(n: nat, x: nat, y: nat)
    requires x < Pow2(n) && y < Pow2(n)
    requires forall k :: 0 <= k < n ==> Bit(x, k) == Bit(y, k)
    ensures x == y
  {
    if n != 0 {
      forall k | 0 <= k < n - 1
        ensures Bit(x / 2, k) == Bit(y / 2, k)
      {
        assert Bit(x, k + 1) == Bit(y, k + 1);
      }
      SameBits(n - 1, x / 2, y / 2);
      assert Bit(x, 0) == Bit(y, 0);
    }
  }

  // ---------- Ranges ----------

  lemma {:induction false} AndBound(x: nat, y: nat)
    ensures And(x, y) <= x && And(x, y) <= y
  {
    if x != 0 && y != 0 { AndBound(x / 2, y / 2); }
  }

  lemma {:induction false} OrBound(n: nat, x: nat, y: nat)
    requires x < Pow2(n) && y < Pow2(n)
    ensures Or(x, y) < Pow2(n)
  {
    if x != 0 && y != 0 { OrBound(n - 1, x / 2, y / 2); }
  }

  // ---------- Bitwise expressions that equal arithmetic ones ----------

  /** `(w & (1 << k)) != 0` tests bit k. */
  lemma {:induction false} AndPow2(w: nat, k: nat)
    ensures And(w, Pow2(k)) != 0 <==> Bit(w, k)
  {
    if w == 0 {
      BitZero(k);
    } else if k != 0 {
      AndPow2(w / 2, k - 1);
    }
  }

  lemma ModHalves(x: nat, m: nat)
    requires 0 < m
    ensures x % (2 * m) == x % 2 + 2 * (x / 2 % m)
  {
    var q := x / 2 / m;
    assert x / 2 == m * q + x / 2 % m;
    assert x == (2 * m) * q + (x % 2 + 2 * (x / 2 % m));
    ModUnique(x, 2 * m, q, x % 2 + 2 * (x / 2 % m));
  }

  lemma MulAtLeast(m: nat, d: int)
    requires 0 < d
    ensures m * d >= m
  {
    assert m * d == m + m * (d - 1);
  }

  lemma ModUnique(x: nat, m: nat, q: nat, r: nat)
    requires r < m && x == m * q + r
    ensures x % m == r && x / m == q
  {
    var d := x / m - q;
    assert m * d == r - x % m;
    if d > 0 {
      MulAtLeast(m, d);
      assert false;
    } else if d < 0 {
      MulAtLeast(m, -d);
      assert false;
    }
  }

  /** The n low bits of x. */
  function Low(x: nat, n: nat): nat {
    if n == 0 then 0 else x % 2 + 2 * Low(x / 2, n - 1)
  }

  lemma {:induction false} LowIsMod(x: nat, n: nat)
    ensures Low(x, n) == x % Pow2(n)
    decreases n
  {
    if n != 0 {
      LowIsMod(x / 2, n - 1);
      ModHalves(x, Pow2(n - 1));
    }
  }

  /** Masking with n low ones keeps the n low bits. */
  lemma {:induction false} AndLow(x: nat, n: nat)
    ensures And(x, Pow2(n) - 1) == Low(x, n)
    decreases n
  {
    if n != 0 {
      AndLow(x / 2, n - 1);
      assert (Pow2(n) - 1) / 2 == Pow2(n - 1) - 1;
      if x == 0 { assert Low(0, n - 1) == 0; }
    }
  }

  lemma {:induction false} Pow2Grows(n: nat, m: nat)
    requires n <= m
    ensures Pow2(n) <= Pow2(m)
  {
    if n < m { Pow2Grows(n, m - 1); }
  }

  /** Masking off the n low bits of an m-bit word clears just those. */
  lemma {:induction false} AndHigh(x: nat, n: nat, m: nat)
    requires n <= m && x < Pow2(m)
    ensures Pow2(n) <= Pow2(m) && And(x, Pow2(m) - Pow2(n)) == x - Low(x, n)
    decreases m
  {
    Pow2Grows(n, m);
    if n == 0 {
      AndLow(x, m);
      LowAll(x, m);
    } else {
      AndHigh(x / 2, n - 1, m - 1);
      assert (Pow2(m) - Pow2(n)) / 2 == Pow2(m - 1) - Pow2(n - 1);
    }
  }

  lemma {:induction false} LowAll(x: nat, n: nat)
    requires x < Pow2(n)
    ensures Low(x, n) == x
  {
    if n != 0 { LowAll(x / 2, n - 1); }
  }

  /** `|` of a multiple of 2^n with a value below 2^n is their sum. */
  lemma {:induction false} OrDisjoint(n: nat, x: nat, y: nat)
    requires Low(x, n) == 0 && y < Pow2(n)
    ensures Or(x, y) == x + y
  {
    if n != 0 && x != 0 && y != 0 {
      OrDisjoint(n - 1, x / 2, y / 2);
    }
  }

  lemma LowOfMultiple(n: nat, k: nat)
    ensures Low(Pow2(n) * k, n) == 0
  {
    LowIsMod(Pow2(n) * k, n);
    ModUnique(Pow2(n) * k, Pow2(n), k, 0);
  }

  /** `(k << n) | y` with y below 2^n. */
  lemma OrShifted(n: nat, k: nat, y: nat)
    requires y < Pow2(n)
    ensures Or(Pow2(n) * k, y) == Pow2(n) * k + y
  {
    LowOfMultiple(n, k);
    OrDisjoint(n, Pow2(n) * k, y);
  }

  // ---------- Words in two parts ----------

  /** The n low bits of l, then the bits of h. */
  function Join(n: nat, h: nat, l: nat): nat {
    if n == 0 then h else l % 2 + 2 * Join(n - 1, h, l / 2)
  }

  lemma {:induction false} JoinIsSum(n: nat, h: nat, l: nat)
    requires l < Pow2(n)
    ensures Join(n, h, l) == Pow2(n) * h + l
  {
    if n != 0 {
      JoinIsSum(n - 1, h, l / 2);
      assert Pow2(n) * h == 2 * (Pow2(n - 1) * h);
    }
  }

  lemma JoinStep(n: nat, h: nat, l: nat)
    requires n > 0
    ensures Join(n, h, l) % 2 == l % 2 && Join(n, h, l) / 2 == Join(n - 1, h, l / 2)
  {
  }

  lemma {:induction false} AndJoin(n: nat, xh: nat, xl: nat, yh: nat, yl: nat)
    ensures And(Join(n, xh, xl), Join(n, yh, yl)) == Join(n, And(xh, yh), And(xl, yl))
  {
    if n != 0 {
      AndJoin(n - 1, xh, xl / 2, yh, yl / 2);
      JoinStep(n, xh, xl);
      JoinStep(n, yh, yl);
      AndUnfold(Join(n, xh, xl), Join(n, yh, yl));
      AndUnfold(xl, yl);
    }
  }

  lemma {:induction false} OrJoin(n: nat, xh: nat, xl: nat, yh: nat, yl: nat)
    ensures Or(Join(n, xh, xl), Join(n, yh, yl)) == Join(n, Or(xh, yh), Or(xl, yl))
  {
    if n != 0 {
      OrJoin(n - 1, xh, xl / 2, yh, yl / 2);
      JoinStep(n, xh, xl);
      JoinStep(n, yh, yl);
      OrUnfold(Join(n, xh, xl), Join(n, yh, yl));
      OrUnfold(xl, yl);
    }
  }

  lemma AndUnfold(x: nat, y: nat)
    ensures And(x, y) % 2 == (if x % 2 == 1 && y % 2 == 1 then 1 else 0) && And(x, y) / 2 == And(x / 2, y / 2)
  {
    LastBit(And(x, y), if x % 2 == 1 && y % 2 == 1 then 1 else 0, And(x / 2, y / 2));
  }

  lemma LastBit(v: nat, b: nat, k: nat)
    requires v == b + 2 * k && b <= 1
    ensures v % 2 == b && v / 2 == k
  {
  }

  lemma OrUnfold(x: nat, y: nat)
    ensures Or(x, y) % 2 == (if x % 2 == 1 || y % 2 == 1 then 1 else 0) && Or(x, y) / 2 == Or(x / 2, y / 2)
  {
    LastBit(Or(x, y), if x % 2 == 1 || y % 2 == 1 then 1 else 0, Or(x / 2, y / 2));
  }
}
