/**
 What each key does, key by key: the two key maps as rows of characters, letters under shift, caps
 lock and control, and the keys that have no character.
 */
module KeyLaws {
  import opened KeyMap
  import opened Ps2

  /** Twelve keys a row by scan code, from 0 on, without and with shift; code 0 where a key has no character. */
  function LowerRow(r: nat): string
  {
    match r
    case 0 => "\0\U{1B}1234567890"
    case 1 => "-=\U{8}\tqwertyui"
    case 2 => "op[]\n\0asdfgh"
    case 3 => "jkl;'`\0\\zxcv"
    case 4 => "bnm,./\0*\0 \0\0"
    case _ => "\0\0\0\0\0\0\0\0\0\0\0\0"
  }

  function UpperRow(r: nat): string
  {
    match r
    case 0 => "\0\U{1B}!@#$%^&*()"
    case 1 => "_+\U{8}\tQWERTYUI"
    case 2 => "OP{}\n\0ASDFGH"
    case 3 => "JKL:\"~\0|ZXCV"
    case 4 => "BNM<>?\0*\0 \0\0"
    case _ => "\0\0\0\0\0\0\0\0\0\0\0\0"
  }

  lemma LowerIsTheRow(r: nat, k: nat)
    requires k < 12
    ensures |LowerRow(r)| == 12 && Lower(12 * r + k) == LowerRow(r)[k] as int
  {
  }

  lemma UpperIsTheRow(r: nat, k: nat)
    requires k < 12
    ensures |UpperRow(r)| == 12 && Upper(12 * r + k) == UpperRow(r)[k] as int
  {
  }

  predicate IsLetterKey(sc: nat) { 97 <= Lower(sc) <= 122 }

  /** Shift turns the letter of a key into its capital, and gives no other key a letter. */
  lemma ShiftedLetters(sc: nat)
    ensures if IsLetterKey(sc) then Upper(sc) == Lower(sc) - 32 else !IsLetter(Upper(sc)) && !IsLetter(Lower(sc))
    ensures IsLetterKey(sc) ==> sc < 0x3A && !IsModifier(sc)
  {
  }

  /** A letter key gives a control code under control, and else a capital when just one of shift and caps lock is on. */
  lemma LetterKeys(m: Modifiers, sc: nat)
    requires !m.extended && IsLetterKey(sc)
    ensures Decode(m, sc) ==
      (m, if m.ctrl then Lower(sc) - 96 else if m.shift != m.caps then Lower(sc) - 32 else Lower(sc))
  {
    ShiftedLetters(sc);
  }

  /** F1 to F12, whatever the modifiers. */
  lemma FunctionKeys(m: Modifiers, k: nat)
    requires !m.extended && k < 12
    ensures Decode(m, if k < 10 then 0x3B + k else 0x4D + k) == (m, 266 + k)
  {
  }

  /** Other keys give the character of their row, whatever caps lock and control. */
  lemma OtherKeys(m: Modifiers, sc: nat)
    requires !m.extended && sc < 0x80 && !IsLetterKey(sc) && sc !in {0x2A, 0x36, 0x1D, 0x38, 0x3A, 0x57, 0x58}
    requires !(0x3B <= sc <= 0x44)
    ensures Decode(m, sc) == (m, if m.shift then Upper(sc) else Lower(sc))
  {
    ShiftedLetters(sc);
  }

  /** Shift, control and alt are held from press to release, caps lock changes at every press. */
  lemma ModifierKeys(m: Modifiers)
    requires !m.extended
    ensures Decode(m, 0x2A) == Decode(m, 0x36) == (m.(shift := true), 0)
    ensures Decode(m, 0xAA) == Decode(m, 0xB6) == (m.(shift := false), 0)
    ensures Decode(m, 0x1D) == (m.(ctrl := true), 0) && Decode(m, 0x9D) == (m.(ctrl := false), 0)
    ensures Decode(m, 0x38) == (m.(alt := true), 0) && Decode(m, 0xB8) == (m.(alt := false), 0)
    ensures Decode(m, 0x3A) == (m.(caps := !m.caps), 0)
  {
  }

  /** Releases of other keys do nothing. */
  lemma ReleasesStoreNothing(m: Modifiers, sc: nat)
    requires !m.extended && 0x80 <= sc < 0x100 && sc !in {0xAA, 0xB6, 0x9D, 0xB8, 0xE0}
    ensures Decode(m, sc) == (m, 0)
  {
  }

  /** Up, down, left, right, home, end, page up, page down, insert, delete. */
  const EXTENDED_KEYS: seq<nat> := [0x48, 0x50, 0x4B, 0x4D, 0x47, 0x4F, 0x49, 0x51, 0x52, 0x53]

  /** The prefix 0xE0 holds for one scan code, which gives one of these keys or nothing. */
  lemma PrefixedKeys(m: Modifiers, sc: nat)
    ensures Decode(m, 0xE0) == (m.(extended := true), 0)
    ensures m.extended && sc != 0xE0 ==> Decode(m, sc).0 == m.(extended := false)
    ensures m.extended && sc !in EXTENDED_KEYS ==> Decode(m, sc).1 == 0
    ensures m.extended ==> forall k :: 0 <= k < 10 ==> Decode(m, EXTENDED_KEYS[k]).1 == 256 + k
  {
    assert EXTENDED_KEYS[0] == 0x48 && EXTENDED_KEYS[1] == 0x50 && EXTENDED_KEYS[2] == 0x4B && EXTENDED_KEYS[3] == 0x4D;
    assert EXTENDED_KEYS[4] == 0x47 && EXTENDED_KEYS[5] == 0x4F && EXTENDED_KEYS[6] == 0x49 && EXTENDED_KEYS[7] == 0x51;
    assert EXTENDED_KEYS[8] == 0x52 && EXTENDED_KEYS[9] == 0x53;
  }
}
