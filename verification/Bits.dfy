/** Powers of two, shifts and the bitwise operators of C on non-negative integers.
    The operators are defined digit by digit; the lemmas say what each one means as
    arithmetic for the masks and single-bit operands the allocator uses. */
module Bits {

  function Pow2(k: nat): (r: nat)
    ensures r >= 1
  {
    if k == 0 then 1 else 2 * Pow2(k - 1)
  }

  /** x << k */
  function Shl(x: nat, k: nat): nat {
    if k == 0 then x else 2 * Shl(x, k - 1)
  }

  /** x >> k */
  function Shr(x: nat, k: nat): nat {
    if k == 0 then x else Shr(x, k - 1) / 2
  }

  /** The k low bits of x. */
  function LowBits(x: nat, k: nat): (r: nat)
    ensures r < Pow2(k)
  {
    if k == 0 then 0 else x % 2 + 2 * LowBits(x / 2, k - 1)
  }

  /** Bit k of x. */
  function Bit(x: nat, k: nat): nat {
    Shr(x, k) % 2
  }

  /** x & y */
  function BitAnd(x: nat, y: nat): nat
    decreases x
  {
    if x == 0 then 0
    else (if x % 2 == 1 && y % 2 == 1 then 1 else 0) + 2 * BitAnd(x / 2, y / 2)
  }

  /** x & ~y */
  function BitAndNot(x: nat, y: nat): nat
    decreases x
  {
    if x == 0 then 0
    else (if x % 2 == 1 && y % 2 == 0 then 1 else 0) + 2 * BitAndNot(x / 2, y / 2)
  }

  /** x ^ y */
  function BitXor(x: nat, y: nat): nat
    decreases x + y
  {
    if x == 0 then y
    else if y == 0 then x
    else (if x % 2 != y % 2 then 1 else 0) + 2 * BitXor(x / 2, y / 2)
  }

  lemma {:induction false} Pow2Monotonic(j: nat, k: nat)
    requires j <= k
    ensures Pow2(j) <= Pow2(k)
    decreases k
  {
    if j < k {
      Pow2Monotonic(j, k - 1);
    }
  }

  lemma {:induction false} Pow2IsShl(k: nat)
    ensures Shl(1, k) == Pow2(k)
  {
    if k == 0 {
    } else {
      Pow2IsShl(k - 1);
    }
  }

  lemma {:induction false} ShrHalf(x: nat, k: nat)
    ensures Shr(x / 2, k) == Shr(x, k + 1)
  {
    if k == 0 {
    } else {
      ShrHalf(x, k - 1);
    }
  }

  /** A number is its high part and its low part. */
  lemma {:induction false} Split(x: nat, k: nat)
    ensures Shl(Shr(x, k), k) + LowBits(x, k) == x
    decreases k
  {
    if k == 0 {
    } else {
      Split(x / 2, k - 1);
      ShrHalf(x, k - 1);
    }
  }

  /** The numbers with high part q are the 2^k numbers from q << k on. */
  lemma {:induction false} HighPart(x: nat, q: nat, k: nat)
    requires Shl(q, k) <= x < Shl(q, k) + Pow2(k)
    ensures Shr(x, k) == q
    decreases k
  {
    if k == 0 {
    } else {
      HighPart(x / 2, q, k - 1);
      ShrHalf(x, k - 1);
    }
  }

  lemma {:induction false} ShlAdd(a: nat, b: nat, k: nat)
    ensures Shl(a + b, k) == Shl(a, k) + Shl(b, k)
  {
    if k == 0 {
    } else {
      ShlAdd(a, b, k - 1);
    }
  }

  lemma {:induction false} ShlDouble(q: nat, k: nat)
    ensures Shl(2 * q, k) == Shl(q, k + 1)
  {
    if k == 0 {
    } else {
      ShlDouble(q, k - 1);
    }
  }

  lemma {:induction false} ShrZero(k: nat)
    ensures Shr(0, k) == 0
  {
    if k == 0 {
    } else {
      ShrZero(k - 1);
    }
  }

  // ----- the low part is the remainder -----

  lemma {:induction false} LowBitsIsMod(x: nat, n: nat)
    ensures LowBits(x, n) == x % Pow2(n)
    decreases n
  {
    if n == 0 {
    } else {
      LowBitsIsMod(x / 2, n - 1);
      ModStep(x, Pow2(n - 1));
    }
  }

  lemma ModStep(x: nat, d: nat)
    requires d >= 1
    ensures x % (2 * d) == x % 2 + 2 * ((x / 2) % d)
  {
    var h := x / 2;
    var q, r := h / d, h % d;
    assert h == d * q + r;
    assert x == (2 * d) * q + (2 * r + x % 2);
    DivMod(x, 2 * d, q, 2 * r + x % 2);
  }

  lemma DivMod(x: nat, d: nat, q: nat, r: nat)
    requires r < d && x == d * q + r
    ensures x / d == q && x % d == r
  {
    QuotientUnique(d, q, x / d, x);
  }

  lemma QuotientUnique(d: nat, q: nat, q': nat, x: nat)
    requires d * q <= x < d * q + d
    requires d * q' <= x < d * q' + d
    ensures q == q'
  {
    if q < q' {
      MulMonotonic(d, q + 1, q');
    } else if q' < q {
      MulMonotonic(d, q' + 1, q);
    }
  }

  lemma MulMonotonic(d: nat, a: nat, b: nat)
    requires a <= b
    ensures d * a <= d * b
    ensures d * (b + 1) == d * b + d && d * (a + 1) == d * a + d
  {}

  // ----- masks -----

  lemma MaskHalves(n: nat)
    requires n > 0
    ensures (Pow2(n) - 1) % 2 == 1 && (Pow2(n) - 1) / 2 == Pow2(n - 1) - 1
  {}

  /** A mask of n low bits keeps the low part. */
  lemma {:induction false} AndMask(x: nat, n: nat)
    ensures BitAnd(x, Pow2(n) - 1) == LowBits(x, n)
    decreases n
  {
    if n == 0 {
      AndZero(x);
    } else {
      MaskHalves(n);
      AndMask(x / 2, n - 1);
    }
  }

  lemma {:induction false} AndZero(x: nat)
    ensures BitAnd(x, 0) == 0
  {
    if x == 0 {
    } else {
      AndZero(x / 2);
    }
  }

  /** Clearing the n low bits rounds down. */
  lemma {:induction false} AndNotMask(x: nat, n: nat)
    ensures BitAndNot(x, Pow2(n) - 1) + LowBits(x, n) == x
    decreases n
  {
    if n == 0 {
      AndNotZero(x);
    } else {
      MaskHalves(n);
      AndNotMask(x / 2, n - 1);
    }
  }

  lemma {:induction false} AndNotZero(x: nat)
    ensures BitAndNot(x, 0) == x
  {
    if x == 0 {
    } else {
      AndNotZero(x / 2);
    }
  }

  // ----- single bits -----

  lemma Pow2Halves(k: nat)
    requires k > 0
    ensures Pow2(k) % 2 == 0 && Pow2(k) / 2 == Pow2(k - 1)
  {}

  /** Exclusive-or with one bit adds the bit when it is clear and takes it away when it is set. */
  lemma {:induction false} XorBit(x: nat, k: nat)
    ensures Bit(x, k) == 0 ==> BitXor(x, Pow2(k)) == x + Pow2(k)
    ensures Bit(x, k) != 0 ==> BitXor(x, Pow2(k)) + Pow2(k) == x
    decreases k
  {
    if x == 0 {
      ShrZero(k);
    } else if k > 0 {
      Pow2Halves(k);
      XorBit(x / 2, k - 1);
      ShrHalf(x, k - 1);
    } else {
      XorZero(x / 2);
    }
  }

  lemma XorZero(x: nat)
    ensures BitXor(x, 0) == x
  {}

  /** Clearing one bit takes it away when it is set. */
  lemma {:induction false} AndNotBit(x: nat, k: nat)
    ensures Bit(x, k) == 0 ==> BitAndNot(x, Pow2(k)) == x
    ensures Bit(x, k) != 0 ==> BitAndNot(x, Pow2(k)) + Pow2(k) == x
    decreases k
  {
    if x == 0 {
      ShrZero(k);
    } else if k > 0 {
      Pow2Halves(k);
      AndNotBit(x / 2, k - 1);
      ShrHalf(x, k - 1);
    } else {
      AndNotZero(x / 2);
    }
  }

  /** The low n bits of x have the bits of x below n. */
  lemma {:induction false} BitOfLow(x: nat, n: nat, k: nat)
    requires k < n
    ensures Bit(LowBits(x, n), k) == Bit(x, k)
    decreases n
  {
    if k == 0 {
    } else {
      BitOfLow(x / 2, n - 1, k - 1);
      ShrHalf(x, k - 1);
      ShrHalf(LowBits(x, n), k - 1);
    }
  }
}
