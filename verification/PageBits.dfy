/**
 The page bitmap, 32 pages to a word, seen as a set of page numbers.
 */
module PageBits {
  import opened WordBits

  const MAX_PAGES: nat := 1048576
  const BITMAP_WORDS: nat := 32768

  /** The bit of page p within its word. */
  function BitOf(p: nat): (k: bv6)
    ensures k < 32
  {
    BitInRange(p);
    (p % 32) as bv6
  }

  lemma BitInRange(p: nat)
    ensures (p % 32) as bv6 < 32 && ((p % 32) as bv6) as nat == p % 32
  {
  }

  lemma BitOfInjective(p: nat, q: nat)
    requires BitOf(p) == BitOf(q)
    ensures p % 32 == q % 32
  {
    BitInRange(p);
    BitInRange(q);
  }

  /** Whether the bitmap marks page p used. */
  function BitAt(words: seq<bv32>, p: nat): bool
    requires |words| == BITMAP_WORDS && p < MAX_PAGES
  {
    TestBit(words[p / 32], BitOf(p))
  }

  /** The bitmap marks exactly the pages in used. */
  ghost predicate Tied(words: seq<bv32>, used: set<nat>)
  {
    && |words| == BITMAP_WORDS
    && forall p {:trigger BitAt(words, p)} :: 0 <= p < MAX_PAGES ==> (BitAt(words, p) <==> p in used)
  }

  lemma BitAtAfterWrite(words: seq<bv32>, p: nat, q: nat)
    requires |words| == BITMAP_WORDS && p < MAX_PAGES && q < MAX_PAGES
    ensures BitAt(words[p / 32 := SetBit(words[p / 32], BitOf(p))], q) == (p == q || BitAt(words, q))
    ensures BitAt(words[p / 32 := ClearBit(words[p / 32], BitOf(p))], q) == (p != q && BitAt(words, q))
  {
    if p == q {
      BitWritesHere(words[p / 32], BitOf(p));
    } else if p / 32 == q / 32 {
      if BitOf(p) == BitOf(q) { BitOfInjective(p, q); }
      SetKeepsBit(words[p / 32], BitOf(p), BitOf(q));
      ClearKeepsBit(words[p / 32], BitOf(p), BitOf(q));
    }
  }

  lemma TiedSet(words: seq<bv32>, used: set<nat>, p: nat)
    requires Tied(words, used) && p < MAX_PAGES
    ensures Tied(words[p / 32 := SetBit(words[p / 32], BitOf(p))], used + {p})
  {
    var r := words[p / 32 := SetBit(words[p / 32], BitOf(p))];
    forall q | 0 <= q < MAX_PAGES ensures BitAt(r, q) <==> q in used + {p} {
      BitAtAfterWrite(words, p, q);
    }
  }

  lemma TiedClear(words: seq<bv32>, used: set<nat>, p: nat)
    requires Tied(words, used) && p < MAX_PAGES
    ensures Tied(words[p / 32 := ClearBit(words[p / 32], BitOf(p))], used - {p})
  {
    var r := words[p / 32 := ClearBit(words[p / 32], BitOf(p))];
    forall q | 0 <= q < MAX_PAGES ensures BitAt(r, q) <==> q in used - {p} {
      BitAtAfterWrite(words, p, q);
    }
  }

  lemma TiedZero(words: seq<bv32>)
    requires |words| == BITMAP_WORDS && forall i :: 0 <= i < BITMAP_WORDS ==> words[i] == 0
    ensures Tied(words, {})
  {
    forall p | 0 <= p < MAX_PAGES ensures !BitAt(words, p) {
      ZeroHasNoBits(BitOf(p));
    }
  }

  lemma BitOfIndex(i: nat, k: bv6)
    requires k < 32
    ensures k as nat < 32 && (32 * i + k as nat) / 32 == i && BitOf(32 * i + k as nat) == k
  {
    assert (32 * i + k as nat) % 32 == k as nat;
  }

  lemma SameBitAt(v: seq<bv32>, w: seq<bv32>, used: set<nat>, i: nat, k: bv6)
    requires Tied(v, used) && Tied(w, used) && i < BITMAP_WORDS && k < 32
    ensures SameBit(v[i], w[i], k)
  {
    BitOfIndex(i, k);
    assert BitAt(v, 32 * i + k as nat) == BitAt(w, 32 * i + k as nat);
  }

  lemma SameByteAt(v: seq<bv32>, w: seq<bv32>, used: set<nat>, i: nat, k: bv6)
    requires Tied(v, used) && Tied(w, used) && i < BITMAP_WORDS && k < 25
    ensures SameByte(v[i], w[i], k)
  {
    SameBitAt(v, w, used, i, k);
    SameBitAt(v, w, used, i, k + 1);
    SameBitAt(v, w, used, i, k + 2);
    SameBitAt(v, w, used, i, k + 3);
    SameBitAt(v, w, used, i, k + 4);
    SameBitAt(v, w, used, i, k + 5);
    SameBitAt(v, w, used, i, k + 6);
    SameBitAt(v, w, used, i, k + 7);
  }

  /** The set of used pages determines every word of the bitmap. */
  lemma TiedDetermines(v: seq<bv32>, w: seq<bv32>, used: set<nat>)
    requires Tied(v, used) && Tied(w, used)
    ensures v == w
  {
    forall i | 0 <= i < BITMAP_WORDS ensures v[i] == w[i] {
      SameByteAt(v, w, used, i, 0);
      SameByteAt(v, w, used, i, 8);
      SameByteAt(v, w, used, i, 16);
      SameByteAt(v, w, used, i, 24);
      WordIsItsBits(v[i], w[i]);
    }
  }
}
