/** The bitwise operators of C on unbounded numbers, and the arithmetic they amount to where the kernel
    uses them.
 */
module Bits {
  import opened Division

  function Power2(k: nat): (p: nat)
    ensures p > 0
  {
    if k == 0 then 1 else 2 * Power2(k - 1)
  }

  function Or(a: nat, b: nat): nat
    decreases a + b
  {
    if a == 0 then b else if b == 0 then a
    else (if a % 2 == 1 || b % 2 == 1 then 1 else 0) + 2 * Or(a / 2, b / 2)
  }

  function And(a: nat, b: nat): nat
    decreases a
  {
    if a == 0 || b == 0 then 0
    else (if a % 2 == 1 && b % 2 == 1 then 1 else 0) + 2 * And(a / 2, b / 2)
  }

  // ----- or -----

  lemma OrUnfolds(a: nat, b: nat)
    ensures Or(a, b) == (if a % 2 == 1 || b % 2 == 1 then 1 else 0) + 2 * Or(a / 2, b / 2)
  {
  }

  lemma {:induction false} OrCommutes(a: nat, b: nat)
    ensures Or(a, b) == Or(b, a)
    decreases a
  {
    if a == 0 || b == 0 {
    } else {
      OrCommutes(a / 2, b / 2);
    }
  }

  lemma OrDouble(x: nat, y: nat, bit: nat)
    requires bit < 2
    ensures Or(2 * x, 2 * y + bit) == 2 * Or(x, y) + bit
  {
    hide Or;
    OrUnfolds(2 * x, 2 * y + bit);
  }

  lemma Regroup(half: nat, a: nat)
    ensures 2 * half * a == 2 * (half * a)
  {
  }

  /** Where one operand has only zeros below bit `k`, the low bits are the other operand's. */
  lemma {:induction false} OrAbove(a: nat, b: nat, low: nat, k: nat)
    requires low < Power2(k)
    ensures Or(Power2(k) * a, Power2(k) * b + low) == Power2(k) * Or(a, b) + low
    decreases k
  {
    if k == 0 {
      assert Power2(0) * a == a && Power2(0) * b + low == b;
    } else {
      var half := Power2(k - 1);
      Regroup(half, a);
      Regroup(half, b);
      Regroup(half, Or(a, b));
      hide Or;
      OrDouble(half * a, half * b + low / 2, low % 2);
      OrAbove(a, b, low / 2, k - 1);
    }
  }

  /** Or into low bits that are zero is addition. */
  lemma OrIsSum(x: nat, low: nat, k: nat)
    requires low < Power2(k)
    ensures Or(Power2(k) * x, low) == Power2(k) * x + low
  {
    OrAbove(x, 0, low, k);
    assert Power2(k) * 0 == 0 && Or(x, 0) == x;
  }

  lemma OrWithOdd(x: nat, m: nat)
    ensures Or(x, 2 * m + 1) == 1 + 2 * Or(x / 2, m)
  {
    hide Or;
    OrUnfolds(x, 2 * m + 1);
  }

  /** Or with all ones gives all ones. */
  lemma {:induction false} OrOnes(a: nat, k: nat)
    requires a < Power2(k)
    ensures Or(a, Power2(k) - 1) == Power2(k) - 1
    decreases k
  {
    if k == 0 {
    } else {
      OrWithOdd(a, Power2(k - 1) - 1);
      OrOnes(a / 2, k - 1);
    }
  }

  // ----- and -----

  lemma AndUnfolds(a: nat, b: nat)
    ensures And(a, b) == (if a % 2 == 1 && b % 2 == 1 then 1 else 0) + 2 * And(a / 2, b / 2)
  {
  }

  lemma AndZero(b: nat)
    ensures And(0, b) == 0
  {
  }

  lemma {:induction false} AndSelf(a: nat)
    ensures And(a, a) == a
  {
    if a == 0 {
    } else {
      AndSelf(a / 2);
    }
  }

  predicate PowerOfTwo(n: nat) {
    n == 1 || (n > 0 && n % 2 == 0 && PowerOfTwo(n / 2))
  }

  lemma ZeroIsNoPower()
    ensures !PowerOfTwo(0)
  {
  }

  /** `n & (n - 1)` is zero exactly for the powers of two. */
  lemma {:induction false} PowerOfTwoTest(n: nat)
    requires n > 0
    ensures And(n, n - 1) == 0 <==> PowerOfTwo(n)
    decreases n
  {
    AndUnfolds(n, n - 1);
    if n % 2 == 1 {
      assert (n - 1) / 2 == n / 2;
      AndSelf(n / 2);
    } else {
      assert (n - 1) / 2 == n / 2 - 1;
      PowerOfTwoTest(n / 2);
    }
  }

  lemma {:induction false} PowerHasExponent(n: nat) returns (k: nat)
    requires PowerOfTwo(n)
    ensures n == Power2(k)
    decreases n
  {
    if n == 1 {
      k := 0;
    } else {
      k := PowerHasExponent(n / 2);
      k := k + 1;
    }
  }

  lemma {:induction false} PowersGrow(j: nat, k: nat)
    requires j < k
    ensures 2 * Power2(j) <= Power2(k)
    decreases k
  {
    if j == k - 1 {
    } else {
      PowersGrow(j, k - 1);
    }
  }

  lemma {:induction false} PowerDivides(j: nat, k: nat)
    requires j <= k
    ensures Power2(k) % Power2(j) == 0
    decreases k
  {
    if j == k {
      DivisionUnique(Power2(k), Power2(j), 1, 0);
    } else {
      PowerDivides(j, k - 1);
      var q := Power2(k - 1) / Power2(j);
      assert Power2(k - 1) == q * Power2(j);
      DivisionUnique(Power2(k), Power2(j), 2 * q, 0);
    }
  }

  /** A power of two below another is at most half of it. */
  lemma PowersDouble(n: nat, k: nat)
    requires PowerOfTwo(n) && n < Power2(k)
    ensures 0 < n && 2 * n <= Power2(k)
  {
    var j := PowerHasExponent(n);
    if j < k { PowersGrow(j, k); } else if k < j { PowersGrow(k, j); }
  }

  lemma WordBits()
    ensures Power2(4) == 16 && Power2(8) == 0x100 && Power2(12) == 0x1000
    ensures Power2(24) == 0x100_0000 && Power2(32) == 0x1_0000_0000
    ensures PowerOfTwo(0x1000)
  {
    assert Power2(4) == 16 by { assert Power2(2) == 4; }
    assert Power2(8) == 256 by { assert Power2(6) == 64; }
    assert Power2(12) == 0x1000 by { assert Power2(10) == 1024; }
    assert Power2(16) == 0x1_0000 by { assert Power2(14) == 0x4000; }
    assert Power2(20) == 0x10_0000 by { assert Power2(18) == 0x4_0000; }
    assert Power2(24) == 0x100_0000 by { assert Power2(22) == 0x40_0000; }
    assert Power2(28) == 0x1000_0000 by { assert Power2(26) == 0x400_0000; }
    assert Power2(32) == 0x1_0000_0000 by { assert Power2(30) == 0x4000_0000; }
    ExponentIsPower(12);
  }

  lemma {:induction false} ExponentIsPower(k: nat)
    ensures PowerOfTwo(Power2(k))
  {
    if k == 0 {
    } else {
      ExponentIsPower(k - 1);
      assert Power2(k) % 2 == 0 && Power2(k) / 2 == Power2(k - 1);
    }
  }

  lemma RemainderOfHalf(x: nat, d: nat)
    requires d > 0
    ensures x % (2 * d) == 2 * (x / 2 % d) + x % 2
  {
    var q, r := x / 2 / d, x / 2 % d;
    assert x / 2 == q * d + r && x == 2 * (x / 2) + x % 2;
    assert x == q * (2 * d) + (2 * r + x % 2) by { assert q * (2 * d) == 2 * (q * d); }
    DivisionUnique(x, 2 * d, q, 2 * r + x % 2);
  }

  lemma AndWithEven(x: nat, m: nat)
    ensures And(x, 2 * m) == 2 * And(x / 2, m)
  {
    hide And;
    AndUnfolds(x, 2 * m);
  }

  lemma AndWithOdd(x: nat, m: nat)
    ensures And(x, 2 * m + 1) == x % 2 + 2 * And(x / 2, m)
  {
    hide And;
    AndUnfolds(x, 2 * m + 1);
  }

  lemma {:induction false} AndOnes(x: nat, w: nat)
    requires x < Power2(w)
    ensures And(x, Power2(w) - 1) == x
    decreases w
  {
    hide And;
    if w == 0 {
      AndZero(0);
    } else {
      AndWithOdd(x, Power2(w - 1) - 1);
      AndOnes(x / 2, w - 1);
    }
  }

  /** Masking off the low `k` of `w` bits rounds down to a multiple of 2^k. */
  lemma {:induction false} MaskRoundsDown(x: nat, k: nat, w: nat)
    requires k <= w && x < Power2(w)
    ensures Power2(k) <= Power2(w) && And(x, Power2(w) - Power2(k)) == x - x % Power2(k)
    decreases w
  {
    hide And;
    if k == 0 {
      AndOnes(x, w);
    } else {
      var c, d := Power2(w - 1), Power2(k - 1);
      MaskRoundsDown(x / 2, k - 1, w - 1);
      RemainderOfHalf(x, d);
      assert Power2(w) == 2 * c && Power2(k) == 2 * d;
      hide Power2;
      AndWithEven(x, c - d);
    }
  }
}
