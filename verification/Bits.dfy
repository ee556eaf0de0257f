/** Bit operations on numbers below 2^bits, bit by bit from the least one. */
module Bits {

  function Pow2(n: nat): nat {
    if n == 0 then 1 else 2 * Pow2(n - 1)
  }

  /** Bitwise exclusive or of two numbers below 2^bits. */
  function XorBits(bits: nat, a: nat, b: nat): (r: nat)
    requires a < Pow2(bits) && b < Pow2(bits)
    ensures r < Pow2(bits)
  {
    if bits == 0 then 0 else 2 * XorBits(bits - 1, a / 2, b / 2) + (a + b) % 2
  }

  lemma XorStep(bits: nat, a: nat, b: nat)
    requires bits > 0 && a < Pow2(bits) && b < Pow2(bits)
    ensures XorBits(bits, a, b) / 2 == XorBits(bits - 1, a / 2, b / 2)
    ensures XorBits(bits, a, b) % 2 == (a + b) % 2
  {
  }

  lemma Parity(x: nat, a: nat, b: nat)
    requires x % 2 == (a + b) % 2
    ensures (x + b) % 2 == a % 2
  {
  }

  lemma {:induction false} XorUndone(bits: nat, a: nat, b: nat)
    requires a < Pow2(bits) && b < Pow2(bits)
    ensures XorBits(bits, XorBits(bits, a, b), b) == a
  {
    if bits > 0 {
      var x := XorBits(bits, a, b);
      XorStep(bits, a, b);
      XorUndone(bits - 1, a / 2, b / 2);
      Parity(x, a, b);
      XorStep(bits, x, b);
    }
  }

  function AndBits(bits: nat, a: nat, b: nat): (r: nat)
    ensures r <= a && r <= b
  {
    if bits == 0 then 0 else 2 * AndBits(bits - 1, a / 2, b / 2) + if a % 2 == 1 && b % 2 == 1 then 1 else 0
  }

  function OrBits(bits: nat, a: nat, b: nat): (r: nat)
    ensures a < Pow2(bits) && b < Pow2(bits) ==> r < Pow2(bits)
  {
    if bits == 0 then 0 else 2 * OrBits(bits - 1, a / 2, b / 2) + if a % 2 == 1 || b % 2 == 1 then 1 else 0
  }

  /** The number left of a shift by `k` that drops its bits. */
  function LowBits(k: nat, x: nat): nat {
    if k == 0 then 0 else 2 * LowBits(k - 1, x / 2) + x % 2
  }

  // ----- what these are, bit by bit

  function Bit(k: nat, x: nat): (b: nat)
    ensures b < 2
  {
    if k == 0 then x % 2 else Bit(k - 1, x / 2)
  }

  lemma {:induction false} BitIsDigit(k: nat, x: nat)
    ensures Pow2(k) > 0 && Bit(k, x) == x / Pow2(k) % 2
  {
    Pow2Grows(0, k);
    if k > 0 {
      BitIsDigit(k - 1, x / 2);
      HalfQuotient(x, Pow2(k - 1));
    }
  }

  lemma HalfQuotient(x: nat, d: nat)
    requires d > 0
    ensures x / 2 / d == x / (2 * d)
  {
    var q, r := x / (2 * d), x % (2 * d);
    assert x == q * (2 * d) + r;
    assert x / 2 == q * d + r / 2;
    assert r / 2 < d;
    QuotientIs(x / 2, d, q, r / 2);
  }

  lemma QuotientIs(x: nat, d: nat, q: nat, r: nat)
    requires d > 0 && x == q * d + r && r < d
    ensures x / d == q && x % d == r
  {
    var p := x / d;
    assert x == p * d + x % d;
    if p < q {
      TimesGrows(p + 1, q, d);
    } else if p > q {
      TimesGrows(q + 1, p, d);
    }
  }

  lemma TimesGrows(a: nat, b: nat, d: nat)
    requires a <= b
    ensures a * d <= b * d
  {
  }

  lemma TwiceRemainder(x: nat, d: nat)
    requires d > 0
    ensures x % (2 * d) == 2 * (x / 2 % d) + x % 2
  {
    var q, r := x / 2 / d, x / 2 % d;
    assert x / 2 == q * d + r;
    assert 2 * (q * d) == q * (2 * d);
    QuotientIs(x, 2 * d, q, 2 * r + x % 2);
  }

  lemma {:induction false} XorBitsAt(bits: nat, a: nat, b: nat, k: nat)
    requires a < Pow2(bits) && b < Pow2(bits) && k < bits
    ensures Bit(k, XorBits(bits, a, b)) == 1 <==> Bit(k, a) != Bit(k, b)
  {
    XorStep(bits, a, b);
    if k > 0 {
      XorBitsAt(bits - 1, a / 2, b / 2, k - 1);
    } else {
      SumParity(a, b);
    }
  }

  lemma SumParity(a: nat, b: nat)
    ensures (a + b) % 2 == 1 <==> a % 2 != b % 2
  {
  }

  lemma {:induction false} AndBitsAt(bits: nat, a: nat, b: nat, k: nat)
    requires k < bits
    ensures Bit(k, AndBits(bits, a, b)) == 1 <==> Bit(k, a) == 1 && Bit(k, b) == 1
  {
    assert AndBits(bits, a, b) / 2 == AndBits(bits - 1, a / 2, b / 2);
    if k > 0 {
      AndBitsAt(bits - 1, a / 2, b / 2, k - 1);
    }
  }

  lemma {:induction false} OrBitsAt(bits: nat, a: nat, b: nat, k: nat)
    requires k < bits
    ensures Bit(k, OrBits(bits, a, b)) == 1 <==> Bit(k, a) == 1 || Bit(k, b) == 1
  {
    assert OrBits(bits, a, b) / 2 == OrBits(bits - 1, a / 2, b / 2);
    if k > 0 {
      OrBitsAt(bits - 1, a / 2, b / 2, k - 1);
    }
  }

  lemma {:induction false} LowBitsAreRemainder(k: nat, x: nat)
    ensures Pow2(k) > 0 && LowBits(k, x) == x % Pow2(k)
  {
    Pow2Grows(0, k);
    if k > 0 {
      LowBitsAreRemainder(k - 1, x / 2);
      TwiceRemainder(x, Pow2(k - 1));
    }
  }

  lemma {:induction false} Pow2Grows(k: nat, n: nat)
    requires k <= n
    ensures 1 <= Pow2(k) <= Pow2(n)
  {
    if k < n {
      Pow2Grows(k, n - 1);
    } else if n > 0 {
      Pow2Grows(k - 1, n - 1);
    }
  }

  lemma {:induction false} AndCommutes(bits: nat, a: nat, b: nat)
    ensures AndBits(bits, a, b) == AndBits(bits, b, a)
  {
    if bits > 0 {
      AndCommutes(bits - 1, a / 2, b / 2);
    }
  }

  lemma {:induction false} AndAgain(bits: nat, m: nat, x: nat)
    ensures AndBits(bits, m, AndBits(bits, m, x)) == AndBits(bits, m, x)
  {
    if bits > 0 {
      AndAgain(bits - 1, m / 2, x / 2);
      assert AndBits(bits, m, x) / 2 == AndBits(bits - 1, m / 2, x / 2);
    }
  }

  lemma {:induction false} OrZero(bits: nat, a: nat)
    requires a < Pow2(bits)
    ensures OrBits(bits, a, 0) == a
  {
    if bits > 0 {
      OrZero(bits - 1, a / 2);
    }
  }

  /** Setting a bit below all the ones adds it. */
  lemma {:induction false} OrNewBit(bits: nat, a: nat, k: nat)
    requires k < bits && a < Pow2(bits) && LowBits(k + 1, a) == 0
    ensures OrBits(bits, a, Pow2(k)) == a + Pow2(k)
  {
    if k == 0 {
      OrZero(bits - 1, a / 2);
    } else {
      OrNewBit(bits - 1, a / 2, k - 1);
    }
  }

  /** Ones above bit `k`, zeros below: what such a mask leaves of a number. */
  lemma {:induction false} AndHighOnes(bits: nat, k: nat, x: nat)
    requires k <= bits && x < Pow2(bits)
    ensures Pow2(k) <= Pow2(bits)
    ensures AndBits(bits, Pow2(bits) - Pow2(k), x) == x - LowBits(k, x)
    decreases bits
  {
    Pow2Grows(k, bits);
    if bits > 0 {
      var mask := Pow2(bits) - Pow2(k);
      if k == 0 {
        AndHighOnes(bits - 1, 0, x / 2);
        assert mask / 2 == Pow2(bits - 1) - 1 && mask % 2 == 1;
      } else {
        AndHighOnes(bits - 1, k - 1, x / 2);
        assert mask / 2 == Pow2(bits - 1) - Pow2(k - 1) && mask % 2 == 0;
      }
    }
  }

  lemma {:induction false} LowBitsGrow(k: nat, n: nat, x: nat)
    requires k <= n
    ensures LowBits(k, x) <= LowBits(n, x)
  {
    if k > 0 {
      LowBitsGrow(k - 1, n - 1, x / 2);
    }
  }

  lemma {:induction false} LowBitsOfHighOnes(bits: nat, k: nat)
    requires k <= bits
    ensures Pow2(k) <= Pow2(bits) && LowBits(k, Pow2(bits) - Pow2(k)) == 0
  {
    Pow2Grows(k, bits);
    if k > 0 {
      LowBitsOfHighOnes(bits - 1, k - 1);
      assert (Pow2(bits) - Pow2(k)) / 2 == Pow2(bits - 1) - Pow2(k - 1);
    }
  }

  lemma {:induction false} LowBitsOfMultiple(k: nat, m: nat)
    ensures LowBits(k, m * Pow2(k)) == 0
  {
    if k > 0 {
      assert m * Pow2(k) == 2 * (m * Pow2(k - 1));
      LowBitsOfMultiple(k - 1, m);
    }
  }

  lemma LowBitsOfNext(k: nat, x: nat)
    requires k > 0 && LowBits(k, x) == 0
    ensures LowBits(k, x + 1) == 1
  {
    assert x % 2 == 0 && (x + 1) / 2 == x / 2;
  }

  lemma EightBits()
    ensures Pow2(8) == 0x100
  {
    assert Pow2(4) == 16;
    assert Pow2(6) == 4 * Pow2(4);
    assert Pow2(8) == 4 * Pow2(6);
  }

  /** Numbers without a one in common add up. */
  lemma {:induction false} OrBelow(bits: nat, a: nat, k: nat, r: nat)
    requires k <= bits && a < Pow2(bits) && LowBits(k, a) == 0 && r < Pow2(k)
    ensures OrBits(bits, a, r) == a + r
  {
    if k == 0 {
      OrZero(bits, a);
    } else {
      OrBelow(bits - 1, a / 2, k - 1, r / 2);
    }
  }

  lemma OrShifted(bits: nat, k: nat, m: nat, r: nat)
    requires k <= bits && m * Pow2(k) < Pow2(bits) && r < Pow2(k)
    ensures OrBits(bits, m * Pow2(k), r) == m * Pow2(k) + r
  {
    LowBitsOfMultiple(k, m);
    OrBelow(bits, m * Pow2(k), k, r);
  }

  function OrBytes(a: nat, b: nat): (r: nat)
    requires a < 0x100 && b < 0x100
    ensures r < 0x100
  {
    EightBits();
    OrBits(8, a, b)
  }

  lemma OrNibbles(high: nat, low: nat)
    requires high < 0x10 && low < 0x10
    ensures OrBytes(high * 0x10, low) == high * 0x10 + low
  {
    EightBits();
    assert Pow2(4) == 0x10;
    OrShifted(8, 4, high, low);
  }
}
