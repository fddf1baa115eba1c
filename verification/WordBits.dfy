/**
 Single bits of 32-bit words: setting or clearing one decides that bit and no other.
 */
module WordBits {

  function TestBit(w: bv32, k: bv6): bool
    requires k < 32
  {
    (w >> k) & 1 == 1
  }

  function SetBit(w: bv32, k: bv6): bv32
    requires k < 32
  {
    w | (1 << k)
  }

  function ClearBit(w: bv32, k: bv6): bv32
    requires k < 32
  {
    w & !(1 << k)
  }

  lemma SetKeepsBit(w: bv32, i: bv6, j: bv6)
    requires i < 32 && j < 32 && i != j
    ensures TestBit(SetBit(w, i), j) == TestBit(w, j)
  {
  }

  lemma ClearKeepsBit(w: bv32, i: bv6, j: bv6)
    requires i < 32 && j < 32 && i != j
    ensures TestBit(ClearBit(w, i), j) == TestBit(w, j)
  {
  }

  lemma BitWritesHere(w: bv32, i: bv6)
    requires i < 32
    ensures TestBit(SetBit(w, i), i) && !TestBit(ClearBit(w, i), i)
  {
  }

  lemma ZeroHasNoBits(k: bv6)
    requires k < 32
    ensures !TestBit(0, k)
  {
  }

  predicate SameBit(v: bv32, w: bv32, k: bv6)
    requires k < 32
  {
    TestBit(v, k) == TestBit(w, k)
  }

  /** Agreement on the eight bits from k on. */
  predicate SameByte(v: bv32, w: bv32, k: bv6)
    requires k < 25
  {
    && SameBit(v, w, k) && SameBit(v, w, k + 1) && SameBit(v, w, k + 2) && SameBit(v, w, k + 3)
    && SameBit(v, w, k + 4) && SameBit(v, w, k + 5) && SameBit(v, w, k + 6) && SameBit(v, w, k + 7)
  }

  /** A word is determined by its bits. */
  lemma WordIsItsBits(v: bv32, w: bv32)
    requires SameByte(v, w, 0) && SameByte(v, w, 8) && SameByte(v, w, 16) && SameByte(v, w, 24)
    ensures v == w
  {
  }
}
