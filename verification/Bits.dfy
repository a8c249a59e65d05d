/**
 Unsigned machine integers as bounded naturals. Wrap-around is written out with
 %, shifts with Pow2, and the bitwise operators by recursion on the bits.
 */
module Bits {

  type Byte = b: nat | b < 0x100
  type U16 = n: nat | n < 0x1_0000
  type U32 = n: nat | n < 0x1_0000_0000
  type U64 = n: nat | n < 0x1_0000_0000_0000_0000
  type Bytes = seq<Byte>

  const TWO_TO_THE_32: nat := 0x1_0000_0000
  const TWO_TO_THE_64: nat := 0x1_0000_0000_0000_0000

  function Pow2(n: nat): (p: nat)
    ensures p >= 1
  {
    if n == 0 then 1 else 2 * Pow2(n - 1)
  }

  function Xor(a: nat, b: nat): nat {
    if a == 0 && b == 0 then 0
    else (if a % 2 != b % 2 then 1 else 0) + 2 * Xor(a / 2, b / 2)
  }

  function And(a: nat, b: nat): nat {
    if a == 0 || b == 0 then 0
    else (if a % 2 == 1 && b % 2 == 1 then 1 else 0) + 2 * And(a / 2, b / 2)
  }

  function Or(a: nat, b: nat): nat {
    if a == 0 && b == 0 then 0
    else (if a % 2 == 1 || b % 2 == 1 then 1 else 0) + 2 * Or(a / 2, b / 2)
  }

  function ShiftRight(a: nat, k: nat): nat {
    if k == 0 then a else ShiftRight(a / 2, k - 1)
  }

  predicate Bit(a: nat, k: nat) {
    if k == 0 then a % 2 == 1 else Bit(a / 2, k - 1)
  }

  // ----- Each operator works bit by bit -----

  lemma {:induction false} ZeroBits(k: nat)
    ensures !Bit(0, k)
  {
    if k > 0 {
      ZeroBits(k - 1);
    }
  }

  lemma XorHalves(a: nat, b: nat)
    ensures Xor(a, b) % 2 == 1 <==> (a % 2 != b % 2)
    ensures Xor(a, b) / 2 == Xor(a / 2, b / 2)
  {
  }

  lemma {:induction false} XorBit(a: nat, b: nat, k: nat)
    ensures Bit(Xor(a, b), k) == (Bit(a, k) != Bit(b, k))
  {
    XorHalves(a, b);
    if k > 0 {
      XorBit(a / 2, b / 2, k - 1);
    }
  }

  lemma AndHalves(a: nat, b: nat)
    ensures And(a, b) % 2 == 1 <==> (a % 2 == 1 && b % 2 == 1)
    ensures And(a, b) / 2 == And(a / 2, b / 2)
  {
  }

  lemma {:induction false} AndBit(a: nat, b: nat, k: nat)
    ensures Bit(And(a, b), k) == (Bit(a, k) && Bit(b, k))
  {
    AndHalves(a, b);
    if k > 0 {
      AndBit(a / 2, b / 2, k - 1);
    }
  }

  lemma OrHalves(a: nat, b: nat)
    ensures Or(a, b) % 2 == 1 <==> (a % 2 == 1 || b % 2 == 1)
    ensures Or(a, b) / 2 == Or(a / 2, b / 2)
  {
  }

  lemma {:induction false} OrBit(a: nat, b: nat, k: nat)
    ensures Bit(Or(a, b), k) == (Bit(a, k) || Bit(b, k))
  {
    OrHalves(a, b);
    if k > 0 {
      OrBit(a / 2, b / 2, k - 1);
    }
  }

  /** The operators stay within the width of their operands. */
  lemma {:induction false} BitwiseFits(a: nat, b: nat, n: nat)
    requires a < Pow2(n) && b < Pow2(n)
    ensures Xor(a, b) < Pow2(n) && And(a, b) < Pow2(n) && Or(a, b) < Pow2(n)
  {
    if n > 0 {
      BitwiseFits(a / 2, b / 2, n - 1);
    }
  }

  // ----- Powers of two and shifts -----

  lemma {:induction false} Pow2Sum(a: nat, b: nat)
    ensures Pow2(a + b) == Pow2(a) * Pow2(b)
  {
    if a > 0 {
      Pow2Sum(a - 1, b);
    }
  }

  lemma Pow2Values()
    ensures Pow2(8) == 0x100 && Pow2(12) == 0x1000 && Pow2(16) == 0x1_0000
    ensures Pow2(32) == TWO_TO_THE_32 && Pow2(64) == TWO_TO_THE_64
  {
    assert Pow2(4) == 16;
    Pow2Sum(4, 4);
    Pow2Sum(4, 8);
    Pow2Sum(8, 8);
    Pow2Sum(16, 16);
    Pow2Sum(32, 32);
  }

  /** Shifting right and keeping the lowest bit reads bit k. */
  lemma {:induction false} ShiftReadsBit(a: nat, k: nat)
    ensures ShiftRight(a, k) % 2 == 1 <==> Bit(a, k)
  {
    if k > 0 {
      ShiftReadsBit(a / 2, k - 1);
    }
  }

  lemma {:induction false} QuotientUnique(a: nat, p: nat, q: nat, r: nat)
    requires p > 0 && a == p * q + r && r < p
    ensures a / p == q && a % p == r
  {
    ProductAtLeast(p, a / p - q);
    assert p * (a / p - q) == r - a % p;
  }

  lemma ProductAtLeast(p: int, d: int)
    requires p > 0
    ensures d >= 1 ==> p * d >= p
    ensures d <= -1 ==> p * d <= -p
  {
  }

  lemma {:induction false} Pow2Bit(n: nat, k: nat)
    ensures Bit(Pow2(n), k) == (n == k)
  {
    if n == 0 {
      if k > 0 {
        ZeroBits(k - 1);
      }
    } else if k > 0 {
      assert Pow2(n) / 2 == Pow2(n - 1);
      Pow2Bit(n - 1, k - 1);
    }
  }

  /** Numbers below 2^n have no bit set from n upward. */
  lemma {:induction false} HighBitsClear(a: nat, n: nat, k: nat)
    requires a < Pow2(n) && n <= k
    ensures !Bit(a, k)
  {
    if n == 0 {
      ZeroBits(k);
    } else {
      HighBitsClear(a / 2, n - 1, k - 1);
    }
  }

  /** A number whose bits from n upward are clear is below 2^n. */
  lemma {:induction false} BelowByBits(a: nat, n: nat)
    requires forall k | k >= n :: !Bit(a, k)
    ensures a < Pow2(n)
    decreases n + a
  {
    if a > 0 {
      if n == 0 {
        assert !Bit(a, 0);
        forall k | k >= 0
          ensures !Bit(a / 2, k)
        {
          assert !Bit(a, k + 1);
        }
        BelowByBits(a / 2, 0);
      } else {
        forall k | k >= n - 1
          ensures !Bit(a / 2, k)
        {
          assert !Bit(a, k + 1);
        }
        BelowByBits(a / 2, n - 1);
      }
    }
  }

  /** Numbers below 2^n are equal when their n lowest bits are. */
  lemma {:induction false} EqualByBits(a: nat, b: nat, n: nat)
    requires a < Pow2(n) && b < Pow2(n)
    requires forall k | 0 <= k < n :: Bit(a, k) == Bit(b, k)
    ensures a == b
  {
    if n > 0 {
      assert Bit(a, 0) == Bit(b, 0);
      forall k | 0 <= k < n - 1
        ensures Bit(a / 2, k) == Bit(b / 2, k)
      {
        assert Bit(a, k + 1) == Bit(b, k + 1);
      }
      EqualByBits(a / 2, b / 2, n - 1);
    }
  }

  /** Reducing modulo 2^n keeps the n lowest bits. */
  lemma {:induction false} WrapKeepsBit(a: nat, n: nat, k: nat)
    requires k < n
    ensures Bit(a % Pow2(n), k) == Bit(a, k)
  {
    var x := a % Pow2(n);
    HalveRemainder(a, Pow2(n - 1));
    assert x % 2 == a % 2 && x / 2 == (a / 2) % Pow2(n - 1);
    if k > 0 {
      WrapKeepsBit(a / 2, n - 1, k - 1);
    }
  }

  /** Multiplying by 2^n moves every bit up by n. */
  lemma {:induction false} ShiftedBit(a: nat, low: nat, n: nat, k: nat)
    requires low < Pow2(n)
    ensures Bit(a * Pow2(n) + low, k) == if k < n then Bit(low, k) else Bit(a, k - n)
  {
    if n > 0 {
      var x := a * Pow2(n) + low;
      assert x == 2 * (a * Pow2(n - 1)) + low;
      assert x % 2 == low % 2 && x / 2 == a * Pow2(n - 1) + low / 2;
      if k > 0 {
        ShiftedBit(a, low / 2, n - 1, k - 1);
      }
    }
  }

  /** Masking with 2^n - 1 leaves the remainder modulo 2^n. */
  lemma {:induction false} AndLowMask(a: nat, n: nat)
    ensures And(a, Pow2(n) - 1) == a % Pow2(n)
  {
    if n > 0 {
      AndLowMask(a / 2, n - 1);
      HalveRemainder(a, Pow2(n - 1));
      AndOdd(a, Pow2(n - 1) - 1);
    }
  }

  lemma AndOdd(a: nat, m: nat)
    ensures And(a, 2 * m + 1) == a % 2 + 2 * And(a / 2, m)
  {
  }

  lemma {:induction false} HalveRemainder(a: nat, p: nat)
    requires p > 0
    ensures a % (2 * p) == a % 2 + 2 * ((a / 2) % p)
  {
    var q := a / 2 / p;
    var r := a / 2 % p;
    assert a / 2 == p * q + r;
    assert a == (2 * p) * q + (a % 2 + 2 * r);
    QuotientUnique(a, 2 * p, q, a % 2 + 2 * r);
  }
}
