/**
 The four bytes of a 32-bit word, in little-endian order.
 */
module WordBytes {
  import opened Sizes
  import opened VmmModel

  type Byte = b: nat | b < 256

  function GetByte(n: nat, k: nat): Byte
    requires n < WORD && k < 4
  {
    if k == 0 then n % 256 else if k == 1 then n / 0x100 % 256 else if k == 2 then n / 0x1_0000 % 256
    else n / 0x100_0000
  }

  function Join(b0: Byte, b1: Byte, b2: Byte, b3: Byte): (n: nat)
    ensures n < WORD
  {
    b0 + 0x100 * b1 + 0x1_0000 * b2 + 0x100_0000 * b3
  }

  function SetByte(n: nat, k: nat, b: Byte): (r: nat)
    requires n < WORD && k < 4
    ensures r < WORD
  {
    Join(if k == 0 then b else GetByte(n, 0), if k == 1 then b else GetByte(n, 1),
         if k == 2 then b else GetByte(n, 2), if k == 3 then b else GetByte(n, 3))
  }

  lemma JoinBytes(b0: Byte, b1: Byte, b2: Byte, b3: Byte)
    ensures var n := Join(b0, b1, b2, b3);
      GetByte(n, 0) == b0 && GetByte(n, 1) == b1 && GetByte(n, 2) == b2 && GetByte(n, 3) == b3
  {
    var n := Join(b0, b1, b2, b3);
    assert n / 0x100 == b1 + 0x100 * b2 + 0x1_0000 * b3;
    assert n / 0x1_0000 == b2 + 0x100 * b3;
  }

  /** Setting a byte changes that byte and no other. */
  lemma SetByteBytes(n: nat, k: nat, b: Byte, j: nat)
    requires n < WORD && k < 4 && j < 4
    ensures GetByte(SetByte(n, k, b), j) == if j == k then b else GetByte(n, j)
  {
    JoinBytes(if k == 0 then b else GetByte(n, 0), if k == 1 then b else GetByte(n, 1),
              if k == 2 then b else GetByte(n, 2), if k == 3 then b else GetByte(n, 3));
  }

  /** A way to read and replace single bytes of words. */
  datatype ByteAccess = ByteAccess(get: (Word, nat) -> Byte, set_: (Word, nat, Byte) -> Word)

  /** Replacing a byte changes that byte and no other, and a zero word has zero bytes. */
  ghost predicate Lawful(x: ByteAccess)
  {
    && (forall w: Word, k: nat, b: Byte, j: nat {:trigger x.get(x.set_(w, k, b), j)} :: 0 <= k < 4 && 0 <= j < 4 ==>
         x.get(x.set_(w, k, b), j) == if j == k then b else x.get(w, j))
    && (forall k: nat {:trigger x.get(ZERO, k)} :: 0 <= k < 4 ==> x.get(ZERO, k) == 0)
  }

  /** A word by its value, kept together with that value. */
  function ByteOf(w: Word, k: nat): Byte
  {
    WordRoundTrip(w, 0);
    if k < 4 then GetByte(Value(w), k) else 0
  }

  function WithByte(w: Word, k: nat, b: Byte): Word
  {
    WordRoundTrip(w, 0);
    if k < 4 then WordOf(SetByte(Value(w), k, b)) else w
  }

  const LITTLE_ENDIAN: ByteAccess := ByteAccess((w: Word, k: nat) => ByteOf(w, k),
                                                (w: Word, k: nat, b: Byte) => WithByte(w, k, b))

  lemma ByteOfValue(w: Word, n: nat, k: nat)
    requires n < WORD && k < 4 && Value(w) == n
    ensures ByteOf(w, k) == GetByte(n, k)
  {
  }

  lemma WithByteBytes(w: Word, k: nat, b: Byte, j: nat)
    requires k < 4 && j < 4
    ensures ByteOf(WithByte(w, k, b), j) == if j == k then b else ByteOf(w, j)
  {
    WordRoundTrip(w, 0);
    var n := Value(w);
    var r := SetByte(n, k, b);
    WordRoundTrip(w, r);
    ByteOfValue(WithByte(w, k, b), r, j);
    ByteOfValue(w, n, j);
    SetByteBytes(n, k, b, j);
  }

  lemma ZeroValue()
    ensures Value(ZERO) == 0
  {
  }

  lemma ZeroValueBytes(k: nat)
    requires k < 4
    ensures GetByte(0, k) == 0
  {
  }

  lemma ZeroBytes(w: Word, k: nat)
    requires Value(w) == 0 && k < 4
    ensures ByteOf(w, k) == 0
  {
    ZeroValueBytes(k);
    ByteOfValue(w, 0, k);
  }

  lemma LittleEndianIsLawful()
    ensures Lawful(LITTLE_ENDIAN)
  {
    var x := LITTLE_ENDIAN;
    forall w: Word, k: nat, b: Byte, j: nat | 0 <= k < 4 && 0 <= j < 4
      ensures x.get(x.set_(w, k, b), j) == if j == k then b else x.get(w, j)
    {
      WithByteBytes(w, k, b, j);
    }
    forall k: nat | 0 <= k < 4 ensures x.get(ZERO, k) == 0 {
      ZeroValue();
      ZeroBytes(ZERO, k);
    }
  }
}
