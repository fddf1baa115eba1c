/**
 The keyboard driver: an interrupt handler that decodes scan codes and stores key values in a
 ring buffer, and a reader that takes them out, interrupted between any two memory accesses.
 */
module Ps2 {
  import opened KeyMap

  const KEYBUF_SIZE: nat := 128

  const KEY_F1: int := 266
  const KEY_F11: int := 276
  const KEY_F12: int := 277

  // ---------------------------------------------------------------- decoding

  /** The modifier state of the handler. */
  datatype Modifiers = Modifiers(extended: bool, shift: bool, ctrl: bool, alt: bool, caps: bool)

  /** The cursor and editing keys behind the 0xE0 prefix; 0 for the others. */
  function ExtendedKey(sc: nat): int
  {
    match sc
    case 0x48 => 256
    case 0x50 => 257
    case 0x4B => 258
    case 0x4D => 259
    case 0x47 => 260
    case 0x4F => 261
    case 0x49 => 262
    case 0x51 => 263
    case 0x52 => 264
    case 0x53 => 265
    case _ => 0
  }

  /** The modifier keys; other scan codes leave the state alone. */
  function Modify(m: Modifiers, sc: nat): Modifiers
  {
    match sc
    case 0x2A => m.(shift := true)
    case 0x36 => m.(shift := true)
    case 0xAA => m.(shift := false)
    case 0xB6 => m.(shift := false)
    case 0x1D => m.(ctrl := true)
    case 0x9D => m.(ctrl := false)
    case 0x38 => m.(alt := true)
    case 0xB8 => m.(alt := false)
    case 0x3A => m.(caps := !m.caps)
    case _ => m
  }

  predicate IsModifier(sc: nat)
  {
    sc in {0x2A, 0x36, 0xAA, 0xB6, 0x1D, 0x9D, 0x38, 0xB8, 0x3A, 0xBA}
  }

  /** c ^ 32 on a letter. */
  function SwapCase(c: nat): nat
    requires IsLetter(c)
  {
    if c >= 97 then c - 32 else c + 32
  }

  function Character(m: Modifiers, sc: nat): nat
  {
    var c := if m.shift then Upper(sc) else Lower(sc);
    var d := if m.caps && IsLetter(c) then SwapCase(c) else c;
    if m.ctrl && 97 <= d <= 122 then d - 96
    else if m.ctrl && 65 <= d <= 90 then d - 64
    else d
  }

  /** The value of a key that is neither a modifier nor extended. */
  function PlainKey(m: Modifiers, sc: nat): int
  {
    if sc >= 0x80 then 0
    else if 0x3B <= sc <= 0x44 then KEY_F1 + (sc - 0x3B)
    else if sc == 0x57 then KEY_F11
    else if sc == 0x58 then KEY_F12
    else Character(m, sc)
  }

  /** What a scan code does: the new modifier state, and the value to store or 0. */
  function Decode(m: Modifiers, sc: nat): (Modifiers, int)
  {
    if sc == 0xE0 then (m.(extended := true), 0)
    else if m.extended then (m.(extended := false), if sc >= 0x80 then 0 else ExtendedKey(sc))
    else if IsModifier(sc) then (Modify(m, sc), 0)
    else (m, PlainKey(m, sc))
  }

  ghost predicate IsKey(v: int) { 1 <= v <= 126 || 256 <= v <= 277 }

  /** Whatever is stored is a 7-bit character below DEL or one of the named keys, never -1. */
  lemma StoredValuesAreKeys(m: Modifiers, sc: nat)
    requires Decode(m, sc).1 != 0
    ensures IsKey(Decode(m, sc).1)
  {
    MapsAreAscii(sc);
  }

  // ---------------------------------------------------------------- the ring

  datatype Ring = Ring(buf: seq<int>, head: nat, tail: nat)

  ghost predicate RingOk(r: Ring) { |r.buf| == 128 && r.head < 128 && r.tail < 128 }

  function Count(r: Ring): nat
    requires r.tail < 128 && r.head < 128
  {
    if r.head >= r.tail then r.head - r.tail else r.head + 128 - r.tail
  }

  function Next(i: nat): nat { (i + 1) % 128 }

  /** buf_put: drops the value when the ring is full. */
  function Put(r: Ring, v: int): Ring
    requires |r.buf| == 128 && r.head < 128
  {
    if Next(r.head) != r.tail then Ring(r.buf[r.head := v], Next(r.head), r.tail) else r
  }

  /** The n values from position i on. */
  ghost function Segment(buf: seq<int>, i: nat, n: nat): (s: seq<int>)
    requires |buf| == 128 && i < 128
    ensures |s| == n
    decreases n
  {
    if n == 0 then [] else [buf[i]] + Segment(buf, Next(i), n - 1)
  }

  /** The values stored and not yet taken, oldest first. */
  ghost function Pending(r: Ring): seq<int>
    requires RingOk(r)
  {
    Segment(r.buf, r.tail, Count(r))
  }

  /** Position n places after i. */
  function After(i: nat, n: nat): nat { (i + n) % 128 }

  lemma AfterNext(i: nat, n: nat)
    requires i < 128 && 0 < n < 128
    ensures After(Next(i), n - 1) == After(i, n) && After(i, n) != i && Next(i) < 128
  {
  }

  lemma {:induction false} SegmentGrows(buf: seq<int>, i: nat, n: nat, k: nat, v: int)
    requires |buf| == 128 && i < 128 && n < 128 && k == After(i, n)
    ensures k < 128 && Segment(buf[k := v], i, n + 1) == Segment(buf, i, n) + [v]
    decreases n
  {
    if n > 0 {
      AfterNext(i, n);
      SegmentGrows(buf, Next(i), n - 1, k, v);
    }
  }

  /** The ring is full, for the code, exactly when 127 values are pending; otherwise the next place is free. */
  lemma PutCounts(r: Ring)
    requires RingOk(r)
    ensures Count(r) <= 127 && (Next(r.head) == r.tail <==> Count(r) == 127) && r.head == After(r.tail, Count(r))
    ensures Count(r) < 127 ==> Next(r.head) < 128 && Count(r.(head := Next(r.head))) == Count(r) + 1
  {
  }

  /** Storing appends to the pending values, unless all 127 places are taken. */
  lemma {:induction false} PutAppends(r: Ring, v: int)
    requires RingOk(r)
    ensures RingOk(Put(r, v)) && Put(r, v).tail == r.tail
    ensures Pending(Put(r, v)) == if Count(r) < 127 then Pending(r) + [v] else Pending(r)
    ensures Count(r) <= 127 && Count(Put(r, v)) >= Count(r)
  {
    PutCounts(r);
    if Count(r) < 127 {
      SegmentGrows(r.buf, r.tail, Count(r), r.head, v);
    }
  }

  /** Advancing the tail drops the oldest pending value. */
  lemma {:induction false} TakeDropsFirst(r: Ring)
    requires RingOk(r) && Count(r) > 0
    ensures RingOk(r.(tail := Next(r.tail)))
    ensures Pending(r) == [r.buf[r.tail]] + Pending(r.(tail := Next(r.tail)))
  {
  }

  // ---------------------------------------------------------------- handler and reader interleaved

  /**
   Where the reader stands between two memory accesses of ps2_poll or ps2_getchar: about to compare
   (in either order of evaluation), having found the ring not empty, holding the tail, holding a value.
   */
  datatype Reader = Idle | SawHead(h: nat) | SawTail(t: nat) | NotEmpty | AtTail(t: nat) | Holding(t: nat, c: int)

  /** The shared state, with the values the handler stored so far and those the reader returned so far. */
  datatype System = System(ring: Ring, mods: Modifiers, reader: Reader, accepted: seq<int>, returned: seq<int>)

  datatype Event = Interrupt(sc: nat) | Access(headFirst: bool)

  /** The handler runs to completion: decode, then store. */
  function Handle(s: System, sc: nat): System
    requires |s.ring.buf| == 128 && s.ring.head < 128
  {
    var (mods, v) := Decode(s.mods, sc);
    Accept(s.(mods := mods), v)
  }

  /** Storing a decoded value, 0 standing for none. */
  function Accept(s: System, v: int): System
    requires |s.ring.buf| == 128 && s.ring.head < 128
  {
    if v == 0 then s
    else
      var ring := Put(s.ring, v);
      s.(ring := ring, accepted := if ring == s.ring then s.accepted else s.accepted + [v])
  }

  /** The reader's next memory access. */
  function ReadStep(s: System, headFirst: bool): System
    requires |s.ring.buf| == 128
  {
    match s.reader
    case Idle => s.(reader := if headFirst then SawHead(s.ring.head) else SawTail(s.ring.tail))
    case SawHead(h) => s.(reader := if h != s.ring.tail then NotEmpty else Idle)
    case SawTail(t) => s.(reader := if s.ring.head != t then NotEmpty else Idle)
    case NotEmpty => s.(reader := AtTail(s.ring.tail))
    case AtTail(t) => s.(reader := if t < 128 then Holding(t, s.ring.buf[t]) else Idle)
    case Holding(t, c) => s.(ring := s.ring.(tail := Next(t)), reader := Idle, returned := s.returned + [c])
  }

  ghost predicate ReaderOk(s: System)
    requires RingOk(s.ring)
  {
    match s.reader
    case Idle => true
    case SawHead(h) => h != s.ring.tail ==> Count(s.ring) > 0
    case SawTail(t) => t == s.ring.tail
    case NotEmpty => Count(s.ring) > 0
    case AtTail(t) => Count(s.ring) > 0 && t == s.ring.tail
    case Holding(t, c) => Count(s.ring) > 0 && t == s.ring.tail && c == s.ring.buf[t]
  }

  ghost predicate Inv(s: System)
  {
    && RingOk(s.ring) && ReaderOk(s)
    && s.accepted == s.returned + Pending(s.ring)
    && (forall i :: 0 <= i < |s.accepted| ==> IsKey(s.accepted[i]))
  }

  lemma {:induction false} AcceptKeeps(s: System, v: int)
    requires Inv(s) && (v != 0 ==> IsKey(v))
    ensures Inv(Accept(s, v))
    ensures v != 0 ==> Accept(s, v).accepted == if |Pending(s.ring)| < 127 then s.accepted + [v] else s.accepted
  {
    if v != 0 {
      PutAppends(s.ring, v);
      PutCounts(s.ring);
      assert Put(s.ring, v) == s.ring <==> Count(s.ring) == 127;
    }
  }

  lemma {:induction false} HandleKeeps(s: System, sc: nat)
    requires Inv(s)
    ensures Inv(Handle(s, sc))
    ensures var v := Decode(s.mods, sc).1;
      v != 0 ==> Handle(s, sc).accepted == if |Pending(s.ring)| < 127 then s.accepted + [v] else s.accepted
  {
    var mods, v := Decode(s.mods, sc).0, Decode(s.mods, sc).1;
    if v != 0 { StoredValuesAreKeys(s.mods, sc); }
    AcceptKeeps(s.(mods := mods), v);
  }

  lemma {:induction false} ReadKeeps(s: System, headFirst: bool)
    requires Inv(s)
    ensures Inv(ReadStep(s, headFirst))
  {
    if s.reader.Holding? { TakeDropsFirst(s.ring); }
  }

  ghost function Step(s: System, e: Event): System
    requires RingOk(s.ring)
  {
    match e
    case Interrupt(sc) => Handle(s, sc)
    case Access(headFirst) => ReadStep(s, headFirst)
  }

  ghost predicate Run(s: System, es: seq<Event>, r: System)
    decreases |es|
  {
    if es == [] then r == s else RingOk(s.ring) && Run(Step(s, es[0]), es[1..], r)
  }

  /** Under every interleaving: values come out in the order they went in, none lost once stored, none made up. */
  lemma {:induction false} ReaderSeesAcceptedPrefix(s: System, es: seq<Event>, r: System)
    requires Inv(s) && Run(s, es, r)
    ensures Inv(r)
    ensures r.returned <= r.accepted && |r.accepted| - |r.returned| <= 127
    ensures forall i :: 0 <= i < |r.returned| ==> IsKey(r.returned[i])
    decreases |es|
  {
    if es == [] {
      PutAppends(r.ring, 0);
      assert forall i :: 0 <= i < |r.returned| ==> r.returned[i] == r.accepted[i];
    } else {
      match es[0] {
        case Interrupt(sc) => HandleKeeps(s, sc);
        case Access(headFirst) => ReadKeeps(s, headFirst);
      }
      ReaderSeesAcceptedPrefix(Step(s, es[0]), es[1..], r);
    }
  }

  // ---------------------------------------------------------------- the driver

  class Keyboard {
    const keybuf: array<int>
    var head: nat
    var tail: nat
    var mods: Modifiers

    ghost predicate Valid()
      reads this, keybuf
    {
      keybuf.Length == 128 && RingOk(View())
    }

    ghost function View(): Ring
      reads this, keybuf
    {
      Ring(keybuf[..], head, tail)
    }

    constructor ()
      ensures Valid() && Pending(View()) == [] && mods == Modifiers(false, false, false, false, false)
    {
      keybuf := new int[128](_ => 0);
      head, tail, mods := 0, 0, Modifiers(false, false, false, false, false);
    }

    /** buf_put. */
    method BufPut(v: int)
      requires Valid()
      modifies this`head, keybuf
      ensures Valid() && View() == Put(old(View()), v)
    {
      var next := (head + 1) % KEYBUF_SIZE;
      if next != tail {
        keybuf[head] := v;
        head := next;
      }
    }

    /** A key behind the 0xE0 prefix. */
    method HandleExtended(sc: nat)
      requires Valid() && sc < 256
      modifies this`head, keybuf
      ensures Valid()
      ensures var v := if sc >= 0x80 then 0 else ExtendedKey(sc);
        View() == if v == 0 then old(View()) else Put(old(View()), v)
    {
      if sc >= 0x80 { return; }
      var val := ExtendedKey(sc);
      if val != 0 { BufPut(val); }
    }

    /** A key that is not a modifier. */
    method HandlePlain(sc: nat)
      requires Valid() && sc < 256
      modifies this`head, keybuf
      ensures Valid()
      ensures var v := PlainKey(mods, sc); View() == if v == 0 then old(View()) else Put(old(View()), v)
    {
      if sc >= 0x80 { return; }
      if 0x3B <= sc <= 0x44 { BufPut(KEY_F1 + (sc - 0x3B)); return; }
      if sc == 0x57 { BufPut(KEY_F11); return; }
      if sc == 0x58 { BufPut(KEY_F12); return; }
      var c := Translate(sc);
      if c == 0 { return; }
      BufPut(c);
    }

    /** The character of a key under the modifiers, or 0. */
    method Translate(sc: nat) returns (c: nat)
      ensures c == Character(mods, sc)
    {
      c := if mods.shift then Upper(sc) else Lower(sc);
      if c == 0 { return; }
      if mods.caps && IsLetter(c) { c := SwapCase(c); }
      if mods.ctrl {
        if 97 <= c <= 122 { c := c - 96; } else if 65 <= c <= 90 { c := c - 64; }
      }
    }

    /** keyboard_handler for one scan code. */
    method HandleScancode(sc: nat)
      requires Valid() && sc < 256
      modifies this`head, this`mods, keybuf
      ensures Valid()
      ensures var (m, v) := Decode(old(mods), sc);
        mods == m && View() == if v == 0 then old(View()) else Put(old(View()), v)
    {
      if sc == 0xE0 { mods := mods.(extended := true); return; }
      if mods.extended {
        mods := mods.(extended := false);
        HandleExtended(sc);
        return;
      }
      if IsModifier(sc) { mods := Modify(mods, sc); return; }
      HandlePlain(sc);
    }

    /** ps2_poll: the oldest pending value, or -1 when there is none. */
    method Poll() returns (c: int)
      requires Valid()
      modifies this`tail
      ensures Valid()
      ensures if old(Pending(View())) == [] then c == -1 && View() == old(View())
              else c == old(Pending(View()))[0] && Pending(View()) == old(Pending(View()))[1..]
    {
      if head == tail { return -1; }
      TakeDropsFirst(View());
      c := keybuf[tail];
      tail := (tail + 1) % KEYBUF_SIZE;
    }
  }
}
