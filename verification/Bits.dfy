/** The arithmetic of module Words is the bit arithmetic of the C macros. */
module Bits {
  import opened Words

  /** Bitwise "and" and "or" of naturals, from the low bit up. */
  function BitAnd(a: nat, b: nat): nat
    decreases a
  {
    if a == 0 then 0 else 2 * BitAnd(a / 2, b / 2) + (if a % 2 == 1 && b % 2 == 1 then 1 else 0)
  }

  function BitOr(a: nat, b: nat): nat
    decreases a + b
  {
    if a + b == 0 then 0 else 2 * BitOr(a / 2, b / 2) + (if a % 2 == 1 || b % 2 == 1 then 1 else 0)
  }

  lemma {:induction false} AndZero(a: nat)
    ensures BitAnd(a, 0) == 0
  {
    if a != 0 {
      AndZero(a / 2);
    }
  }

  lemma {:induction false} OrZero(a: nat)
    ensures BitOr(a, 0) == a
  {
    if a != 0 {
      OrZero(a / 2);
    }
  }

  /** Doubling a mask keeps or clears the lowest bit. */
  lemma AndTwice(x: nat, b: nat)
    ensures BitAnd(x, 2 * b) == 2 * BitAnd(x / 2, b)
    ensures BitAnd(x, 2 * b + 1) == 2 * BitAnd(x / 2, b) + x % 2
  {
    assert (2 * b) / 2 == b && (2 * b) % 2 == 0;
    assert (2 * b + 1) / 2 == b && (2 * b + 1) % 2 == 1;
  }

  lemma {:induction false} RelativeTwice(x: nat, p: nat)
    requires 0 < p
    ensures Relative(x, 2 * p) == 2 * Relative(x / 2, p) + x % 2
    decreases x
  {
    if x >= 2 * p {
      assert (x - 2 * p) / 2 == x / 2 - p && (x - 2 * p) % 2 == x % 2;
      RelativeTwice(x - 2 * p, p);
    }
  }

  /** `a & (2^k - 1)` is the position of a in a ring of 2^k. */
  lemma {:induction false} MaskIsRelative(a: nat, k: nat)
    ensures 0 < Pow2(k) && BitAnd(a, Pow2(k) - 1) == Relative(a, Pow2(k))
    decreases k
  {
    Pow2Monotone(0, k);
    if k == 0 {
      AndZero(a);
      RelativeLaps(0, 1, a);
    } else {
      var p := Pow2(k - 1);
      MaskIsRelative(a / 2, k - 1);
      AndTwice(a, p - 1);
      RelativeTwice(a, p);
      assert 2 * (p - 1) + 1 == 2 * p - 1;
    }
  }

  /** `x & ~(2^k - 1)` on n-bit words clears the k low bits. */
  lemma {:induction false} ClearLowBits(x: nat, n: nat, k: nat)
    requires k <= n && x < Pow2(n)
    ensures 0 < Pow2(k) <= Pow2(n)
    ensures BitAnd(x, Pow2(n) - Pow2(k)) == x - Relative(x, Pow2(k))
    decreases n
  {
    Pow2Monotone(0, k);
    Pow2Monotone(k, n);
    if k == 0 {
      MaskIsRelative(x, n);
      RelativeLaps(0, 1, x);
    } else {
      HalfBelow(x, Pow2(n - 1));
      ClearLowBits(x / 2, n - 1, k - 1);
      ClearStep(x, Pow2(n - 1), Pow2(k - 1));
    }
  }

  lemma HalfBelow(x: nat, p: nat)
    requires x < 2 * p
    ensures x / 2 < p
  {
  }

  lemma ClearStep(x: nat, n: nat, p: nat)
    requires 0 < p <= n && BitAnd(x / 2, n - p) == x / 2 - Relative(x / 2, p)
    ensures BitAnd(x, 2 * n - 2 * p) == x - Relative(x, 2 * p)
  {
    AndTwice(x, n - p);
    RelativeTwice(x, p);
    assert x == 2 * (x / 2) + x % 2;
  }

  /** `x | 1`. */
  lemma {:induction false} OrOneIsLock(x: nat)
    ensures BitOr(x, 1) == Lock(x)
  {
    OrZero(x / 2);
    RelativeTwice(x, 1);
    RelativeLaps(0, 1, x / 2);
    assert BitOr(x, 1) == 2 * BitOr(x / 2, 0) + 1;
    assert x == 2 * (x / 2) + x % 2;
  }

  /** RELATIVE(a, max) = a & (max - 1) for a power of two. */
  lemma RelativeIsMask(a: u64, max: nat)
    requires IsPow2(max)
    ensures 0 < max && Relative(a, max) == BitAnd(a, max - 1)
  {
    var k: nat :| Pow2(k) == max;
    MaskIsRelative(a, k);
  }

  /** UNLOCK(x) = x & ~1 and LOCK(x) = x | 1 on 64-bit words, and both stay 64-bit words. */
  lemma LockIsBit(x: u64)
    ensures Unlock(x) == BitAnd(x, WORD - 2) < WORD && Lock(x) == BitOr(x, 1) < WORD
  {
    Pow2Of64();
    Pow2Small();
    ClearLowBits(x, 64, 1);
    OrOneIsLock(x);
    LockBit(x);
    LockBelowWord(x);
  }

  /** ALIGN_UP(s, 8) = (s + 7) & ~7 on 64-bit words, as long as s + 7 does not wrap. */
  lemma AlignUpIsMask(s: u64)
    requires s + 7 < WORD
    ensures AlignUp8(s) == BitAnd(s + 7, WORD - 8)
  {
    Pow2Of64();
    Pow2Small();
    ClearLowBits(s + 7, 64, 3);
  }

  /** Wrap, Add64 and Sub64 are arithmetic modulo 2^64. */
  lemma {:induction false} WordArithmeticIsModular(x: nat, a: u64, b: u64)
    ensures Wrap(x) == x % WORD && Add64(a, b) == (a + b) % WORD && Sub64(a, b) == (a - b) % WORD
    decreases x
  {
    if x >= WORD {
      WordArithmeticIsModular(x - WORD, a, b);
    }
  }
}
