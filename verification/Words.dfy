/**
 * Machine words as non-negative integers. Shifts double and halve bit by bit, so that
 * every law below is linear arithmetic and induction on the number of bits.
 */
module Words {
  type byte = b: int | 0 <= b < 256

  /** x << n without loss of bits. */
  function Shl(x: nat, n: nat): (r: nat) {
    if n == 0 then x else 2 * Shl(x, n - 1)
  }

  /** x >> n. */
  function Shr(x: nat, n: nat): (r: nat) {
    if n == 0 then x else Shr(x, n - 1) / 2
  }

  /** x << n in a 32-bit word: bits pushed above bit 31 are lost. */
  function Shl32(x: nat, n: nat): (r: nat) {
    Shl(x, n) % 0x1_0000_0000
  }

  /** x & (2^n - 1): the low n bits. */
  function LowBits(x: nat, n: nat): (r: nat) {
    if n == 0 then 0 else 2 * LowBits(x / 2, n - 1) + x % 2
  }

  /** Bitwise OR. */
  function Or(a: nat, b: nat): (r: nat)
    decreases a + b
  {
    if a == 0 && b == 0 then 0
    else 2 * Or(a / 2, b / 2) + (if a % 2 == 1 || b % 2 == 1 then 1 else 0)
  }

  function Pow2(n: nat): (p: nat) {
    Shl(1, n)
  }

  /** x fits in n bits. */
  predicate Fits(x: nat, n: nat) {
    x < Pow2(n)
  }

  lemma {:induction false} ShlAdds(a: nat, b: nat, n: nat)
    ensures Shl(a + b, n) == Shl(a, n) + Shl(b, n)
  {
    if n > 0 {
      ShlAdds(a, b, n - 1);
    }
  }

  lemma {:induction false} ShlTwice(a: nat, m: nat, n: nat)
    ensures Shl(Shl(a, m), n) == Shl(a, m + n)
  {
    if n > 0 {
      ShlTwice(a, m, n - 1);
    }
  }

  /** A number of m bits shifted left by n fits in m + n bits. */
  lemma {:induction false} ShlFits(x: nat, m: nat, n: nat)
    requires Fits(x, m)
    ensures Shl(x, n) + Pow2(n) <= Pow2(m + n)
    ensures Fits(Shl(x, n), m + n)
    decreases n
  {
    if n > 0 {
      ShlFits(x, m, n - 1);
    }
  }

  lemma {:induction false} Pow2Grows(m: nat, n: nat)
    requires m <= n
    ensures 1 <= Pow2(m) <= Pow2(n)
    decreases n
  {
    if m < n {
      Pow2Grows(m, n - 1);
    } else if 0 < n {
      Pow2Grows(m - 1, n - 1);
    }
  }

  lemma Pow2At32()
    ensures Pow2(8) == 256 && Pow2(32) == 0x1_0000_0000
  {
    ShlTwice(1, 8, 8);
    ShlTwice(1, 16, 8);
    ShlTwice(1, 24, 8);
  }

  /** Shifting a number left loses nothing while it stays inside 32 bits. */
  lemma Shl32Exact(x: nat, width: nat, n: nat)
    requires Fits(x, width) && width + n <= 32
    ensures Shl32(x, n) == Shl(x, n) && Fits(Shl(x, n), width + n)
  {
    ShlFits(x, width, n);
    Pow2Grows(width + n, 32);
    Pow2At32();
  }

  /** Shifting a 32-bit word right undoes packing a low part below a high part. */
  lemma {:induction false} ShrPacked(high: nat, n: nat, low: nat)
    requires Fits(low, n)
    ensures Shr(Shl(high, n) + low, n) == high
    decreases n
  {
    if n > 0 {
      ShrHalves(Shl(high, n) + low, n - 1);
      assert (Shl(high, n) + low) / 2 == Shl(high, n - 1) + low / 2;
      ShrPacked(high, n - 1, low / 2);
    }
  }

  lemma {:induction false} ShrHalves(x: nat, n: nat)
    ensures Shr(x / 2, n) == Shr(x, n + 1)
  {
    if n > 0 {
      ShrHalves(x, n - 1);
    }
  }

  /** The low bits of a packed number are its low part. */
  lemma {:induction false} LowPacked(high: nat, n: nat, low: nat)
    requires Fits(low, n)
    ensures LowBits(Shl(high, n) + low, n) == low
  {
    if n > 0 {
      assert (Shl(high, n) + low) / 2 == Shl(high, n - 1) + low / 2;
      LowPacked(high, n - 1, low / 2);
    }
  }

  /** OR of numbers that share no set bit is their sum. */
  lemma {:induction false} OrDisjoint(high: nat, k: nat, low: nat)
    requires Fits(low, k)
    ensures Or(Shl(high, k), low) == Shl(high, k) + low
  {
    if k == 0 {
      OrZero(high);
    } else {
      OrDisjoint(high, k - 1, low / 2);
    }
  }

  lemma {:induction false} OrZero(a: nat)
    ensures Or(a, 0) == a
  {
    if a > 0 {
      OrZero(a / 2);
    }
  }
}
