/**
 * Bitwise operators on naturals, defined bit by bit from the least
 * significant end, and the arithmetic facts the buddy allocator relies on:
 * XOR with 2^k flips bit k, OR with 2^k sets it, and AND with the mask
 * `ONES << k` rounds down to a multiple of 2^k.
 */
module Bits {

  /** 2^k */
  function Pow2(k: nat): (r: nat)
    ensures r >= 1
  {
    if k == 0 then 1 else 2 * Pow2(k - 1)
  }

  /** Bitwise exclusive or (C's `^`). */
  function Xor(a: nat, b: nat): (r: nat)
    decreases a + b
  {
    if a == 0 && b == 0 then 0
    else 2 * Xor(a / 2, b / 2) + (if a % 2 == b % 2 then 0 else 1)
  }

  /** Bitwise inclusive or (C's `|`). */
  function Or(a: nat, b: nat): (r: nat)
    decreases a + b
  {
    if a == 0 && b == 0 then 0
    else 2 * Or(a / 2, b / 2) + (if a % 2 == 1 || b % 2 == 1 then 1 else 0)
  }

  /** Bitwise and (C's `&`). */
  function And(a: nat, b: nat): (r: nat)
    decreases a + b
  {
    if a == 0 || b == 0 then 0
    else 2 * And(a / 2, b / 2) + (if a % 2 == 1 && b % 2 == 1 then 1 else 0)
  }

  /** Bit k of a is set. */
  predicate Bit(a: nat, k: nat)
  {
    if k == 0 then a % 2 == 1 else Bit(a / 2, k - 1)
  }

  /** The k low bits of a are clear: a is a multiple of 2^k. */
  predicate Aligned(a: nat, k: nat)
  {
    k == 0 || (a % 2 == 0 && Aligned(a / 2, k - 1))
  }

  /** a with its k low bits cleared. */
  function RoundDown(a: nat, k: nat): (r: nat)
  {
    if k == 0 then a else 2 * RoundDown(a / 2, k - 1)
  }

  lemma {:induction false} Pow2Monotone(i: nat, j: nat)
    requires i <= j
    ensures Pow2(i) <= Pow2(j)
  {
    if i < j {
      Pow2Monotone(i, j - 1);
    }
  }

  /** 2^(k+8) is 256 times 2^k. */
  lemma {:induction false} Pow2Plus8(k: nat)
    ensures Pow2(k + 8) == 256 * Pow2(k)
  {
    if k == 0 {
      assert Pow2(8) == 256;
    } else {
      Pow2Plus8(k - 1);
    }
  }

  /** 2^64, the number of values of a 64-bit size_t. */
  lemma Pow2Of64()
    ensures Pow2(64) == 0x1_0000_0000_0000_0000
  {
    Pow2Plus8(0); Pow2Plus8(8); Pow2Plus8(16); Pow2Plus8(24);
    Pow2Plus8(32); Pow2Plus8(40); Pow2Plus8(48); Pow2Plus8(56);
  }

  lemma {:induction false} XorZero(a: nat)
    ensures Xor(a, 0) == a
  {
    if a != 0 {
      XorZero(a / 2);
    }
  }

  lemma {:induction false} OrZero(a: nat)
    ensures Or(a, 0) == a
  {
    if a != 0 {
      OrZero(a / 2);
    }
  }

  /** XOR with a fixed operand undoes itself. */
  lemma {:induction false} XorInvolution(a: nat, b: nat)
    ensures Xor(Xor(a, b), b) == a
    decreases a + b
  {
    var x := Xor(a, b);
    if a == 0 && b == 0 {
    } else {
      XorInvolution(a / 2, b / 2);
      assert x / 2 == Xor(a / 2, b / 2) && x % 2 == (if a % 2 == b % 2 then 0 else 1);
      if x == 0 && b == 0 {
        XorZero(a);
      }
    }
  }

  /** XOR with 2^k flips bit k: it adds 2^k when the bit is clear and subtracts it when set. */
  lemma {:induction false} XorPow2(a: nat, k: nat)
    ensures Xor(a, Pow2(k)) == if Bit(a, k) then a - Pow2(k) else a + Pow2(k)
  {
    if k == 0 {
      XorZero(a / 2);
    } else {
      assert Xor(a, Pow2(k)) == 2 * Xor(a / 2, Pow2(k - 1)) + a % 2;
      XorPow2(a / 2, k - 1);
    }
  }

  /** OR with 2^k sets bit k: it adds 2^k exactly when the bit was clear. */
  lemma {:induction false} OrPow2(a: nat, k: nat)
    ensures Or(a, Pow2(k)) == if Bit(a, k) then a else a + Pow2(k)
  {
    if k == 0 {
      OrZero(a / 2);
    } else {
      assert Or(a, Pow2(k)) == 2 * Or(a / 2, Pow2(k - 1)) + a % 2;
      OrPow2(a / 2, k - 1);
    }
  }

  /** AND with 2^w - 1 keeps every a below 2^w. */
  lemma {:induction false} AndOnes(a: nat, w: nat)
    requires a < Pow2(w)
    ensures And(a, Pow2(w) - 1) == a
  {
    if a != 0 {
      AndOnes(a / 2, w - 1);
    }
  }

  /** Rounding down a number below 2^k to a multiple of 2^k gives 0. */
  lemma {:induction false} RoundDownSmall(a: nat, k: nat)
    requires a < Pow2(k)
    ensures RoundDown(a, k) == 0
  {
    if k > 0 {
      RoundDownSmall(a / 2, k - 1);
    }
  }

  /**
   * AND with the w-bit mask of ones shifted left by k (2^w - 2^k) clears the
   * k low bits of every a below 2^w.
   */
  lemma {:induction false} AndHighMask(a: nat, k: nat, w: nat, mask: nat)
    requires k <= w && a < Pow2(w) && mask == Pow2(w) - Pow2(k)
    ensures And(a, mask) == RoundDown(a, k)
  {
    if k == 0 {
      AndOnes(a, w);
    } else if k == w {
      RoundDownSmall(a, k);
    } else if a == 0 {
      RoundDownSmall(a, k);
    } else {
      Pow2Monotone(k, w - 1);
      assert mask == 2 * (Pow2(w - 1) - Pow2(k - 1));
      assert And(a, mask) == 2 * And(a / 2, mask / 2);
      AndHighMask(a / 2, k - 1, w - 1, mask / 2);
    }
  }

  /**
   * RoundDown(a, k) is the start of the aligned 2^k-sized range holding a:
   * a multiple of 2^k at most a and within 2^k of it.
   */
  lemma {:induction false} RoundDownBounds(a: nat, k: nat)
    ensures Aligned(RoundDown(a, k), k)
    ensures RoundDown(a, k) <= a < RoundDown(a, k) + Pow2(k)
  {
    if k > 0 {
      RoundDownBounds(a / 2, k - 1);
    }
  }

  /** A multiple of 2^(k+1) is a multiple of 2^k. */
  lemma {:induction false} AlignedWeaken(a: nat, k: nat)
    requires Aligned(a, k + 1)
    ensures Aligned(a, k)
  {
    if k > 0 {
      AlignedWeaken(a / 2, k - 1);
    }
  }

  /** A multiple of 2^k is a multiple of 2^(k+1) exactly when its bit k is clear. */
  lemma {:induction false} AlignedBit(a: nat, k: nat)
    requires Aligned(a, k)
    ensures Aligned(a, k + 1) <==> !Bit(a, k)
  {
    if k > 0 {
      AlignedBit(a / 2, k - 1);
    }
  }

  /** Adding 2^k to a multiple of 2^k gives a multiple of 2^k and flips bit k. */
  lemma {:induction false} AlignedStep(a: nat, k: nat)
    requires Aligned(a, k)
    ensures Aligned(a + Pow2(k), k)
    ensures Bit(a + Pow2(k), k) != Bit(a, k)
  {
    if k > 0 {
      assert (a + Pow2(k)) / 2 == a / 2 + Pow2(k - 1);
      AlignedStep(a / 2, k - 1);
    }
  }

  /** Subtracting 2^k from a multiple of 2^k whose bit k is set clears that bit. */
  lemma {:induction false} AlignedStepDown(a: nat, k: nat)
    requires Aligned(a, k) && Bit(a, k)
    ensures a >= Pow2(k) && Aligned(a - Pow2(k), k + 1)
  {
    if k > 0 {
      AlignedStepDown(a / 2, k - 1);
      assert (a - Pow2(k)) / 2 == a / 2 - Pow2(k - 1);
    }
  }

  /** No multiple of 2^k lies strictly between a multiple of 2^k and the next one. */
  lemma {:induction false} AlignedGap(a: nat, x: nat, k: nat)
    requires Aligned(a, k) && a < x < a + Pow2(k)
    ensures !Aligned(x, k)
  {
    if k > 0 && x % 2 == 0 {
      AlignedGap(a / 2, x / 2, k - 1);
    }
  }

  /** Two multiples of 2^k less than 2^k apart are equal. */
  lemma AlignedUnique(a: nat, b: nat, k: nat)
    requires Aligned(a, k) && Aligned(b, k)
    requires a <= b < a + Pow2(k)
    ensures a == b
  {
    if a < b {
      AlignedGap(a, b, k);
    }
  }

  /** An aligned block of size 2^k that starts below 2^n ends by 2^n. */
  lemma {:induction false} AlignedFits(a: nat, k: nat, n: nat)
    requires k <= n && a < Pow2(n) && Aligned(a, k)
    ensures a + Pow2(k) <= Pow2(n)
  {
    if k > 0 {
      AlignedFits(a / 2, k - 1, n - 1);
    }
  }

  /** Euclidean division and remainder are determined by any decomposition. */
  lemma DivModUnique(a: nat, d: nat, q: nat, r: nat)
    requires d > 0 && r < d && a == d * q + r
    ensures a / d == q && a % d == r
  {
    var q', r' := a / d, a % d;
    assert d * q' + r' == d * q + r;
    if q' < q {
      MulAtLeast(d, q - q');
    } else if q < q' {
      MulAtLeast(d, q' - q);
    }
  }

  lemma MulAtLeast(d: nat, m: nat)
    requires m >= 1
    ensures d * m >= d
  {
    assert d * m == d * (m - 1) + d;
  }

  /** Dividing by 2^(k+1) is halving and then dividing by 2^k. */
  lemma DivPow2Succ(a: nat, k: nat)
    ensures a / Pow2(k + 1) == (a / 2) / Pow2(k)
    ensures a % Pow2(k + 1) == 2 * ((a / 2) % Pow2(k)) + a % 2
  {
    var p := Pow2(k);
    var q, r := (a / 2) / p, (a / 2) % p;
    assert a / 2 == p * q + r;
    assert a == (2 * p) * q + (2 * r + a % 2);
    DivModUnique(a, 2 * p, q, 2 * r + a % 2);
  }

  /**
   * Aligned, Bit and RoundDown are the usual arithmetic notions: a multiple
   * of 2^k, the parity of a / 2^k, and a minus its remainder modulo 2^k.
   */
  lemma {:induction false} ArithmeticMeaning(a: nat, k: nat)
    ensures Aligned(a, k) <==> a % Pow2(k) == 0
    ensures Bit(a, k) <==> (a / Pow2(k)) % 2 == 1
    ensures RoundDown(a, k) == a - a % Pow2(k)
  {
    if k > 0 {
      ArithmeticMeaning(a / 2, k - 1);
      DivPow2Succ(a, k - 1);
    }
  }
}
