/** The 64-bit words the test computes from its loop counters (size_t idx,
    uintptr_t iteration and the thread id): Word(n) is n written in binary,
    modulo 2^64. It is built from shifts and ors so that the proofs below
    stay in bit-vector reasoning and never convert between int and bv64. */
module Words {

  /** The lowest bit of n as a word. */
  function Bit(n: nat): (b: bv64)
    ensures b <= 1
  {
    if n % 2 == 1 then 1 else 0
  }

  /** n modulo 2^64, as a 64-bit word. */
  function Word(n: nat): bv64 {
    if n == 0 then 0 else (Word(n / 2) << 1) | Bit(n)
  }

  function Pow2(k: nat): (p: nat)
    ensures p > 0
  {
    if k == 0 then 1 else 2 * Pow2(k - 1)
  }

  lemma {:induction false} Pow2Add(a: nat, b: nat)
    ensures Pow2(a + b) == Pow2(a) * Pow2(b)
    decreases a
  {
    if a > 0 {
      Pow2Add(a - 1, b);
    }
  }

  lemma Pow2Of4()
    ensures Pow2(4) == 16
  {
  }

  lemma Pow2Of7()
    ensures Pow2(7) == 128
  {
    Pow2Of4();
    Pow2Add(4, 3);
  }

  lemma Pow2Of48()
    ensures Pow2(48) == 0x1_0000_0000_0000
  {
    Pow2Of4();
    Pow2Add(4, 4);
    Pow2Add(8, 8);
    Pow2Add(16, 16);
    Pow2Add(32, 16);
  }

  // Facts about single words, kept apart so that each proof sees few terms.

  lemma ShiftBound(w: bv64, b: bv64, k: bv8)
    requires 1 <= k < 64 && w < 1 << (k - 1) && b <= 1
    ensures (w << 1) | b < 1 << k
  {
  }

  lemma Below63(w: bv64, k: bv8)
    requires k < 64 && w < 1 << k
    ensures w < 1 << 63
  {
  }

  lemma Predecessor(k: bv8)
    requires 1 <= k
    ensures (k - 1) as int == k as int - 1
  {
  }

  lemma LowBit(w: bv64, b: bv64)
    requires b <= 1
    ensures ((w << 1) | b) & 1 == b
  {
  }

  lemma HighBits(w: bv64, b: bv64)
    requires b <= 1 && w < 1 << 63
    ensures ((w << 1) | b) >> 1 == w
  {
  }

  lemma WordUnfold(n: nat)
    ensures Word(n) == (Word(n / 2) << 1) | Bit(n)
  {
  }

  lemma WordLow(n: nat)
    ensures Word(n) & 1 == Bit(n)
  {
    WordUnfold(n);
    LowBit(Word(n / 2), Bit(n));
  }

  lemma WordHigh(n: nat)
    requires Word(n / 2) < 1 << 63
    ensures Word(n) >> 1 == Word(n / 2)
  {
    WordUnfold(n);
    HighBits(Word(n / 2), Bit(n));
  }

  /** A number below 2^k has no bit at or above k. */
  lemma {:induction false} WordBelow(n: nat, k: bv8)
    requires k < 64 && n < Pow2(k as int)
    ensures Word(n) < 1 << k
  {
    if n > 0 {
      Predecessor(k);
      WordBelow(n / 2, k - 1);
      WordUnfold(n);
      ShiftBound(Word(n / 2), Bit(n), k);
    }
  }

  /** Below 2^k (k < 64) distinct numbers give distinct words. */
  lemma {:induction false} WordInjective(i: nat, j: nat, k: bv8)
    requires 1 <= k < 64 && i < Pow2(k as int) && j < Pow2(k as int) && i != j
    ensures Word(i) != Word(j)
  {
    if i % 2 != j % 2 {
      WordLow(i);
      WordLow(j);
    } else {
      Predecessor(k);
      WordInjective(i / 2, j / 2, k - 1);
      WordBelow(i / 2, k - 1);
      WordBelow(j / 2, k - 1);
      Below63(Word(i / 2), k - 1);
      Below63(Word(j / 2), k - 1);
      WordHigh(i);
      WordHigh(j);
    }
  }
}
