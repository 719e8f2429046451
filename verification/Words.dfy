/** Machine words without machine arithmetic: positions in a ring, multiples of
    eight, the lock bit, 64-bit wrap-around, and little-endian words in a byte
    memory.  Remainders are written as "the offset less its whole laps"; module
    Bits proves that these are the masks of core/src/ipc_utils.h. */
module Words {

  const WORD: nat := 0x1_0000_0000_0000_0000
  const HALF: nat := 0x8000_0000_0000_0000

  type u64 = x: int | 0 <= x < 0x1_0000_0000_0000_0000
  type byte = x: int | 0 <= x < 256

  // ------------------------------------------------------------------
  // Positions in a ring
  // ------------------------------------------------------------------

  /** The position of an offset inside a ring: the offset less its whole laps. */
  function Relative(offset: nat, capacity: nat): (p: nat)
    requires 0 < capacity
    ensures p < capacity && p <= offset
  {
    if offset < capacity then offset else Relative(offset - capacity, capacity)
  }

  /** The first two laps. */
  lemma RelativeSmall(x: nat, d: nat)
    requires 0 < d
    ensures x < d ==> Relative(x, d) == x
    ensures d <= x < 2 * d ==> Relative(x, d) == x - d
  {
  }

  /** The start of the lap an offset lies in. */
  lemma {:induction false} RelativeFloor(x: nat, d: nat)
    requires 0 < d
    ensures Relative(x - Relative(x, d), d) == 0
    decreases x
  {
    if x >= d {
      RelativeFloor(x - d, d);
    }
  }

  /** Advancing an offset without crossing the wrap. */
  lemma {:induction false} RelativeAdvance(t: nat, s: nat, d: nat)
    requires 0 < d && Relative(t, d) + s <= d
    ensures Relative(t + s, d) == if Relative(t, d) + s == d then 0 else Relative(t, d) + s
    decreases t
  {
    if t >= d {
      RelativeAdvance(t - d, s, d);
    }
  }

  /** Two offsets at most one lap apart lie in the same or in adjacent laps. */
  lemma {:induction false} SameOrNextLap(d: nat, h: nat, t: nat)
    requires 0 < d && h <= t <= h + d
    ensures t - Relative(t, d) == h - Relative(h, d) || t - Relative(t, d) == h - Relative(h, d) + d
    decreases h
  {
    if h >= d {
      SameOrNextLap(d, h - d, t - d);
    }
  }

  /** Whole laps do not change the position. */
  lemma {:induction false} RelativeLaps(x: nat, d: nat, laps: nat)
    requires 0 < d
    ensures 0 <= laps * d && Relative(x + laps * d, d) == Relative(x, d)
    decreases laps
  {
    if laps > 0 {
      RelativeLaps(x, d, laps - 1);
      assert laps * d == (laps - 1) * d + d;
    }
  }

  /** Reducing by whole multiples of d first does not change the position modulo d. */
  lemma {:induction false} RelativeOfRelative(x: nat, d: nat, laps: nat, w: nat)
    requires 0 < d && 0 < w && w == laps * d
    ensures Relative(Relative(x, w), d) == Relative(x, d)
    decreases x
  {
    if x >= w {
      RelativeOfRelative(x - w, d, laps, w);
      RelativeLaps(x - w, d, laps);
    }
  }

  // ------------------------------------------------------------------
  // Multiples of eight
  // ------------------------------------------------------------------

  predicate Aligned8(x: nat) { Relative(x, 8) == 0 }

  /** ALIGN_UP(x, 8). */
  function AlignUp8(x: nat): nat { x + 7 - Relative(x + 7, 8) }

  lemma {:induction false} AlignedAdd(a: nat, b: nat)
    requires Aligned8(a)
    ensures Aligned8(a + b) <==> Aligned8(b)
    decreases a
  {
    if a >= 8 {
      AlignedAdd(a - 8, b);
    }
  }

  lemma AlignedSub(a: nat, b: nat)
    requires Aligned8(a) && Aligned8(b) && b <= a
    ensures Aligned8(a - b)
  {
    AlignedAdd(b, a - b);
  }

  /** Different multiples of eight are at least eight apart. */
  lemma AlignedGap(a: nat, b: nat)
    requires Aligned8(a) && Aligned8(b) && a < b
    ensures a + 8 <= b
  {
    AlignedSub(b, a);
  }

  lemma AlignUp8Facts(x: nat)
    ensures Aligned8(AlignUp8(x)) && x <= AlignUp8(x) < x + 8
  {
    RelativeFloor(x + 7, 8);
  }

  lemma {:induction false} RelativeAligned(x: nat, d: nat)
    requires 0 < d && Aligned8(d) && Aligned8(x)
    ensures Aligned8(Relative(x, d))
    decreases x
  {
    if x >= d {
      AlignedSub(x, d);
      RelativeAligned(x - d, d);
    }
  }

  // ------------------------------------------------------------------
  // Powers of two
  // ------------------------------------------------------------------

  function Pow2(k: nat): nat {
    if k == 0 then 1 else 2 * Pow2(k - 1)
  }

  ghost predicate IsPow2(n: nat) {
    exists k: nat :: Pow2(k) == n
  }

  lemma {:induction false} Pow2Monotone(j: nat, k: nat)
    requires j <= k
    ensures 1 <= Pow2(j) <= Pow2(k)
    decreases k
  {
    if k == 0 {
    } else if j == k {
      Pow2Monotone(k - 1, k - 1);
    } else {
      Pow2Monotone(j, k - 1);
    }
  }

  lemma {:induction false} Pow2Add(j: nat, k: nat)
    ensures Pow2(j + k) == Pow2(j) * Pow2(k)
  {
    if j != 0 {
      Pow2Add(j - 1, k);
      assert (2 * Pow2(j - 1)) * Pow2(k) == 2 * (Pow2(j - 1) * Pow2(k));
    }
  }

  lemma Pow2Small()
    ensures Pow2(1) == 2 && Pow2(3) == 8 && Pow2(4) == 16
  {
    assert Pow2(4) == 2 * Pow2(3) && Pow2(3) == 2 * Pow2(2) && Pow2(2) == 2 * Pow2(1);
  }

  lemma Pow2Of64()
    ensures Pow2(8) == 256 && Pow2(63) == HALF && Pow2(64) == WORD
  {
    Pow2Small();
    Pow2Add(4, 4);
    Pow2Add(8, 8);
    Pow2Add(16, 16);
    Pow2Add(32, 32);
    assert Pow2(64) == 2 * Pow2(63);
  }

  /** A power of two that is at most 2^63 divides 2^64. */
  lemma Pow2DividesWord(n: nat) returns (m: nat)
    requires IsPow2(n) && n <= HALF
    ensures 0 < n && WORD == m * n
  {
    var k: nat :| Pow2(k) == n;
    Pow2Of64();
    if k > 64 {
      Pow2Monotone(64, k);
    }
    Pow2Monotone(0, k);
    Pow2Add(64 - k, k);
    m := Pow2(64 - k);
  }

  /** A power of two that is at least 8 is a multiple of 8. */
  lemma Pow2Aligned(n: nat)
    requires IsPow2(n) && 8 <= n
    ensures Aligned8(n)
  {
    var k: nat :| Pow2(k) == n;
    Pow2Small();
    if k < 3 {
      Pow2Monotone(k, 2);
    }
    Pow2FromEight(k);
  }

  lemma {:induction false} Pow2FromEight(k: nat)
    requires 3 <= k
    ensures Aligned8(Pow2(k))
  {
    if k == 3 {
      Pow2Small();
    } else {
      Pow2FromEight(k - 1);
      AlignedAdd(Pow2(k - 1), Pow2(k - 1));
    }
  }

  // ------------------------------------------------------------------
  // The lock bit
  // ------------------------------------------------------------------

  /** UNLOCK, LOCK and _is_locked of core/src/ipc_buffer.c: the lock is the low bit. */
  function Unlock(word: nat): nat { word - Relative(word, 2) }

  function Lock(word: nat): nat { word - Relative(word, 2) + 1 }

  predicate IsLocked(word: nat) { Relative(word, 2) == 1 }

  /** Taking and dropping the lock bit of an offset word. */
  lemma LockBit(word: nat)
    ensures !IsLocked(Unlock(word)) && Unlock(Unlock(word)) == Unlock(word)
    ensures IsLocked(Lock(word)) && Unlock(Lock(word)) == Unlock(word)
    ensures IsLocked(word) <==> Lock(word) == word
    ensures !IsLocked(word) <==> Unlock(word) == word
  {
    var u := word - Relative(word, 2);
    RelativeFloor(word, 2);
    RelativeAdvance(u, 1, 2);
    assert Relative(u, 2) == 0 && Relative(u + 1, 2) == 1;
  }

  lemma LockBelowWord(x: u64)
    ensures Lock(x) < WORD
  {
    if Unlock(x) == WORD - 1 {
      RelativeLaps(1, 2, 0x7FFF_FFFF_FFFF_FFFF);
      assert false;
    }
  }

  lemma {:induction false} AlignedIsUnlocked(offset: nat)
    requires Aligned8(offset)
    ensures !IsLocked(offset) && Unlock(offset) == offset && Lock(offset) == offset + 1
    ensures IsLocked(offset + 1) && Unlock(offset + 1) == offset
    decreases offset
  {
    if offset >= 8 {
      AlignedIsUnlocked(offset - 8);
      RelativeLaps(offset - 8, 2, 4);
      RelativeLaps(offset - 7, 2, 4);
    }
  }

  // ------------------------------------------------------------------
  // Wrapping 64-bit arithmetic
  // ------------------------------------------------------------------

  /** The value an ever-growing offset has in a 64-bit word. */
  function Wrap(x: nat): u64 { Relative(x, WORD) }

  function Add64(a: u64, b: u64): u64 {
    if a + b < WORD then a + b else a + b - WORD
  }

  function Sub64(a: u64, b: u64): u64 {
    if b <= a then a - b else a - b + WORD
  }

  lemma {:induction false} WrapAdd(a: nat, b: u64)
    ensures Add64(Wrap(a), b) == Wrap(a + b)
    decreases a
  {
    if a >= WORD {
      WrapAdd(a - WORD, b);
    } else {
      RelativeSmall(a, WORD);
      RelativeSmall(a + b, WORD);
    }
  }

  /** The wrapped difference of two offsets is the true one when that fits. */
  lemma {:induction false} WrapSub(a: nat, b: nat)
    requires 0 <= a - b < WORD
    ensures Sub64(Wrap(a), Wrap(b)) == a - b
    decreases b
  {
    if b >= WORD {
      WrapSub(a - WORD, b - WORD);
    } else {
      RelativeSmall(a, WORD);
      RelativeSmall(b, WORD);
    }
  }

  /** The writer's free-space formula in 64-bit arithmetic is the true signed one,
      also when a stale tail lies behind the head and `tail - head` underflows. */
  lemma {:induction false} FreeSpaceWraps(t: nat, h: nat, d: u64)
    requires 0 <= d - (t - h) < WORD
    ensures Sub64(d, Sub64(Wrap(t), Wrap(h))) == d - (t - h)
    decreases t
  {
    if t >= WORD && h >= WORD {
      FreeSpaceWraps(t - WORD, h - WORD, d);
    } else {
      RelativeSmall(t, WORD);
      RelativeSmall(h, WORD);
    }
  }

  lemma WrapInjective(a: nat, b: nat)
    requires Wrap(a) == Wrap(b) && 0 <= a - b < WORD
    ensures a == b
  {
    WrapSub(a, b);
  }

  lemma WrapAligned(a: nat)
    ensures Aligned8(Wrap(a)) <==> Aligned8(a)
  {
    RelativeOfRelative(a, 8, 0x2000_0000_0000_0000, WORD);
  }

  // ------------------------------------------------------------------
  // Little-endian words in memory
  // ------------------------------------------------------------------

  function FromBytes(s: seq<byte>): nat {
    if s == [] then 0 else s[0] + 256 * FromBytes(s[1..])
  }

  function ToBytes(n: nat, k: nat): (s: seq<byte>)
    ensures |s| == k
  {
    if k == 0 then [] else [n % 256] + ToBytes(n / 256, k - 1)
  }

  lemma {:induction false} BytesRoundTrip(n: nat, k: nat)
    requires n < Pow2(8 * k)
    ensures FromBytes(ToBytes(n, k)) == n
    decreases k
  {
    if k > 0 {
      Pow2Add(8, 8 * (k - 1));
      Pow2Of64();
      BytesRoundTrip(n / 256, k - 1);
      assert ToBytes(n, k)[1..] == ToBytes(n / 256, k - 1);
    }
  }

  lemma {:induction false} FromBytesBound(s: seq<byte>)
    ensures FromBytes(s) < Pow2(8 * |s|)
    decreases |s|
  {
    if s != [] {
      FromBytesBound(s[1..]);
      Pow2Of64();
      Pow2Add(8, 8 * |s[1..]|);
    }
  }

  /** The 64-bit word at position o. */
  function Get64(m: seq<byte>, o: nat): nat
    requires o + 8 <= |m|
  {
    FromBytes(m[o..o + 8])
  }

  /** The bytes of n that replace the bytes `prior`. */
  function WordBytes(n: nat, prior: seq<byte>): (s: seq<byte>)
    ensures |s| == |prior|
  {
    ToBytes(n, |prior|)
  }

  /** Memory m with the 64-bit word n stored at position o. */
  function Put64(m: seq<byte>, o: nat, n: nat): (m': seq<byte>)
    requires o + 8 <= |m|
    ensures |m'| == |m|
  {
    m[..o] + WordBytes(n, m[o..o + 8]) + m[o + 8..]
  }

  /** m' agrees with m outside positions [lo, hi). */
  ghost predicate SameOutside(m: seq<byte>, m': seq<byte>, lo: nat, hi: nat) {
    |m| == |m'| && forall i :: 0 <= i < |m| && !(lo <= i < hi) ==> m'[i] == m[i]
  }

  /** m' is m after a 64-bit store of n at o. */
  ghost predicate Wrote64(m: seq<byte>, m': seq<byte>, o: nat, n: nat) {
    o + 8 <= |m| && SameOutside(m, m', o, o + 8) && Get64(m', o) == n
  }

  /** The bytes of m from o on are the given ones. */
  ghost predicate BytesAt(m: seq<byte>, o: nat, bytes: seq<byte>) {
    o + |bytes| <= |m| && m[o..o + |bytes|] == bytes
  }

  lemma Get64Bound(m: seq<byte>, o: nat)
    requires o + 8 <= |m|
    ensures Get64(m, o) < WORD
  {
    FromBytesBound(m[o..o + 8]);
    Pow2Of64();
  }

  /** What is stored is what is loaded, and nothing else changes. */
  lemma Put64Spec(m: seq<byte>, o: nat, n: nat)
    requires o + 8 <= |m| && n < WORD
    ensures Wrote64(m, Put64(m, o, n), o, n)
  {
    var m' := Put64(m, o, n);
    assert m'[o..o + 8] == WordBytes(n, m[o..o + 8]);
    Pow2Of64();
    BytesRoundTrip(n, 8);
  }

  lemma SliceUnchanged(m: seq<byte>, m': seq<byte>, lo: nat, hi: nat, a: nat, b: nat)
    requires SameOutside(m, m', lo, hi)
    requires a <= b <= |m| && (b <= lo || hi <= a)
    ensures m'[a..b] == m[a..b]
  {
  }

  lemma Word64Unchanged(m: seq<byte>, m': seq<byte>, lo: nat, hi: nat, o: nat)
    requires SameOutside(m, m', lo, hi)
    requires o + 8 <= |m| && (o + 8 <= lo || hi <= o)
    ensures Get64(m', o) == Get64(m, o)
  {
    SliceUnchanged(m, m', lo, hi, o, o + 8);
  }
}
