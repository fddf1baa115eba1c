/**
 Two-level page tables in physical memory, and what the virtual memory operations do to them.
 A machine is all of physical memory, the set of used frames, and the kernel's directory;
 directories, tables and pages are frames named by frame number, and frame 0 is the null pointer.
 */
module VmmModel {
  import opened Sizes
  import opened Pmm

  const ENTRIES: nat := 1024

  // ---------------------------------------------------------------- words

  type FrameNo = f: nat | f < 0x10_0000
  type Rest = r: nat | r < 512

  /** The low 12 bits of a word: the three bits the kernel names, and the nine others. */
  datatype Flags = Flags(present: bool, writable: bool, user: bool, rest: Rest)

  /** A 32-bit word as its upper 20 and lower 12 bits. */
  datatype Word = Word(frame: FrameNo, flags: Flags)

  const ZERO: Word := Word(0, Flags(false, false, false, 0))

  function BitValue(b: bool, v: nat): nat { if b then v else 0 }

  function FlagsValue(f: Flags): nat
  {
    f.rest * 8 + BitValue(f.user, 4) + BitValue(f.writable, 2) + BitValue(f.present, 1)
  }

  function Value(w: Word): nat { w.frame * 4096 + FlagsValue(w.flags) }

  function FlagsOfValue(n: nat): Flags
    requires n < 4096
  {
    Flags(n % 2 == 1, n / 2 % 2 == 1, n / 4 % 2 == 1, n / 8)
  }

  function WordOf(n: nat): Word
    requires n < WORD
  {
    Word(n / 4096, FlagsOfValue(n % 4096))
  }

  lemma FlagsRoundTrip(f: Flags)
    ensures FlagsValue(f) < 4096 && FlagsOfValue(FlagsValue(f)) == f
  {
    var n := FlagsValue(f);
    assert n / 8 == f.rest;
    assert n / 4 == 2 * f.rest + BitValue(f.user, 1);
    assert n / 2 == 2 * (2 * f.rest + BitValue(f.user, 1)) + BitValue(f.writable, 1);
    assert n == 2 * (n / 2) + BitValue(f.present, 1);
  }

  lemma LowestBit(q: nat, b: bool)
    ensures var n := 2 * q + BitValue(b, 1); n / 2 == q && (n % 2 == 1 <==> b)
  {
  }

  /** A word's value has the bits present, writable and user from bit 0 up, and the frame in its upper 20 bits. */
  lemma BitsOfWord(w: Word)
    ensures Value(w) % 2 == 1 <==> w.flags.present
    ensures Value(w) / 2 % 2 == 1 <==> w.flags.writable
    ensures Value(w) / 2 / 2 % 2 == 1 <==> w.flags.user
    ensures Value(w) / 2 / 2 / 2 == 512 * w.frame + w.flags.rest
  {
    var upper := w.frame * 512 + w.flags.rest;
    var withUser := 2 * upper + BitValue(w.flags.user, 1);
    var withWritable := 2 * withUser + BitValue(w.flags.writable, 1);
    assert Value(w) == 2 * withWritable + BitValue(w.flags.present, 1);
    LowestBit(upper, w.flags.user);
    LowestBit(withUser, w.flags.writable);
    LowestBit(withWritable, w.flags.present);
  }

  /** The split is a bijection between words and 32-bit values. */
  lemma WordRoundTrip(w: Word, n: nat)
    requires n < WORD
    ensures Value(w) < WORD && WordOf(Value(w)) == w
    ensures Value(WordOf(n)) == n
  {
    FlagsRoundTrip(w.flags);
    assert FlagsValue(FlagsOfValue(n % 4096)) == n % 4096;
  }

  type Frame = f: seq<Word> | |f| == 1024 witness seq(1024, _ => ZERO)
  type Memory = m: seq<Frame> | |m| == 0x10_0000 ghost witness Blank()

  ghost function Blank(): seq<Frame> { seq(0x10_0000, _ => ZeroFrame()) }

  function ZeroFrame(): Frame { seq(1024, _ => ZERO) }

  type Total = t: nat | t <= 0x10_0000

  datatype Machine = Machine(mem: Memory, used: set<nat>, total: Total, kernel: FrameNo)

  // ---------------------------------------------------------------- single steps

  /** Every used frame exists, frame 0 is never free, and only real frames are handed out. */
  ghost predicate Sane(m: Machine)
  {
    0 in m.used && forall f :: f in m.used ==> f < m.total
  }

  /** pmm_alloc_page: the machine with the lowest free frame taken, and that frame or null. */
  function Alloc(m: Machine): (r: (Machine, FrameNo))
  {
    var p := LowestFree(m.used, m.total);
    if p < m.total then (m.(used := m.used + {p}), p) else (m, 0)
  }

  function Release(m: Machine, f: nat): Machine { m.(used := m.used - {f}) }

  function Write(m: Machine, f: FrameNo, k: nat, w: Word): Machine
    requires k < ENTRIES
  {
    m.(mem := m.mem[f := m.mem[f][k := w]])
  }

  function WriteFrame(m: Machine, f: FrameNo, page: Frame): Machine { m.(mem := m.mem[f := page]) }

  lemma AllocFresh(m: Machine)
    requires Sane(m)
    ensures var (r, f) := Alloc(m);
      && Sane(r) && r.mem == m.mem && r.total == m.total && r.kernel == m.kernel
      && (f == 0 ==> r == m) && (f != 0 ==> f !in m.used && r.used == m.used + {f} && f < m.total)
  {
    assert LowestFree(m.used, m.total) < m.total ==> LowestFree(m.used, m.total) !in m.used;
  }

  // ---------------------------------------------------------------- translation

  /** Directory slot and table index of a page number, the upper 20 bits of a virtual address. */
  function Slot(page: FrameNo): (i: nat)
    ensures i < ENTRIES
  {
    page / 1024
  }

  function Index(page: FrameNo): (j: nat)
    ensures j < ENTRIES
  {
    page % 1024
  }

  /** The word that maps a page under directory pd: absent when the slot is. */
  function Leaf(m: Machine, pd: FrameNo, i: nat, j: nat): Word
    requires i < ENTRIES && j < ENTRIES
  {
    if m.mem[pd][i].flags.present then m.mem[m.mem[pd][i].frame][j] else ZERO
  }

  /** vmm_get_phys for directory pd; null when the page is not mapped. */
  function GetPhys(m: Machine, pd: FrameNo, page: FrameNo, offset: nat): nat
  {
    var e := Leaf(m, pd, Slot(page), Index(page));
    if e.flags.present then e.frame * 4096 + offset else 0
  }

  /** The slot is present and is, bit for bit, the kernel's. */
  predicate Shared(m: Machine, pd: FrameNo, i: nat)
    requires i < ENTRIES
  {
    m.mem[pd][i].flags.present && m.mem[pd][i] == m.mem[m.kernel][i]
  }

  /** The slot holds a table of its own. */
  predicate Private(m: Machine, pd: FrameNo, i: nat)
    requires i < ENTRIES
  {
    m.mem[pd][i].flags.present && m.mem[pd][i] != m.mem[m.kernel][i]
  }

  // ---------------------------------------------------------------- mapping

  function WithUser(w: Word, user: bool): Word
  {
    if user then w.(flags := w.flags.(user := true)) else w
  }

  /** A shared slot gets its own copy of the kernel's table; fails when no frame is left. */
  function Privatise(m: Machine, pd: FrameNo, i: nat, user: bool): (Machine, bool)
    requires i < ENTRIES
  {
    if pd != m.kernel && Shared(m, pd, i) then
      var (m1, t) := Alloc(m);
      if t == 0 then (m1, false)
      else
        var m2 := WriteFrame(m1, t, m1.mem[m1.mem[pd][i].frame]);
        (Write(m2, pd, i, WithUser(Word(t, m2.mem[pd][i].flags), user)), true)
    else (m, true)
  }

  /** An absent slot gets an empty table; fails when no frame is left. */
  function AddTable(m: Machine, pd: FrameNo, i: nat, user: bool): (Machine, bool)
    requires i < ENTRIES
  {
    if m.mem[pd][i].flags.present then (m, true)
    else
      var (m1, t) := Alloc(m);
      if t == 0 then (m1, false)
      else (Write(WriteFrame(m1, t, ZeroFrame()), pd, i, Word(t, Flags(true, true, user, 0))), true)
  }

  /** vmm_map_page_in, and vmm_map_page with the current directory; silently does nothing on failure. */
  function MapIn(m: Machine, pd: FrameNo, page: FrameNo, phys: FrameNo, flags: Flags): (Machine, bool)
  {
    var i := Slot(page);
    var (m1, ok1) := Privatise(m, pd, i, flags.user);
    if !ok1 then (m1, false)
    else
      var (m2, ok2) := AddTable(m1, pd, i, flags.user);
      if !ok2 then (m2, false)
      else
        var m3 := Write(m2, pd, i, WithUser(m2.mem[pd][i], flags.user));
        (Write(m3, m3.mem[pd][i].frame, Index(page), Word(phys, flags.(present := true))), true)
  }

  /** vmm_alloc_page_in: a fresh frame mapped at the page; returns the frame even if mapping failed. */
  function AllocIn(m: Machine, pd: FrameNo, page: FrameNo, flags: Flags): (Machine, FrameNo)
  {
    var (m1, f) := Alloc(m);
    if f == 0 then (m1, 0) else (MapIn(m1, pd, page, f, flags).0, f)
  }

  // ---------------------------------------------------------------- address spaces

  function KernelSlots(m: Machine): Frame
  {
    seq(1024, i requires 0 <= i < 1024 => if m.mem[m.kernel][i].flags.present then m.mem[m.kernel][i] else ZERO)
  }

  /** vmm_create_address_space. */
  function Create(m: Machine): (Machine, FrameNo)
  {
    var (m1, pd) := Alloc(m);
    if pd == 0 then (m1, 0) else (WriteFrame(m1, pd, KernelSlots(m1)), pd)
  }

  /** Frames named by the first n present entries of table t. */
  function LeafFrames(m: Machine, t: FrameNo, n: nat): set<nat>
    requires n <= ENTRIES
  {
    if n == 0 then {}
    else LeafFrames(m, t, n - 1) + if m.mem[t][n - 1].flags.present then {m.mem[t][n - 1].frame} else {}
  }

  /** Tables and pages reached through the first n private slots of pd. */
  function TableFrames(m: Machine, pd: FrameNo, n: nat): set<nat>
    requires n <= ENTRIES
  {
    if n == 0 then {}
    else
      TableFrames(m, pd, n - 1)
      + if Private(m, pd, n - 1) then LeafFrames(m, m.mem[pd][n - 1].frame, ENTRIES) + {m.mem[pd][n - 1].frame} else {}
  }

  /** What belongs to an address space: its directory, private tables and their pages. */
  function Owned(m: Machine, pd: FrameNo): set<nat> { TableFrames(m, pd, ENTRIES) + {pd} }

  /** vmm_destroy_address_space. */
  function Destroy(m: Machine, pd: FrameNo): Machine
  {
    if pd == 0 || pd == m.kernel then m else m.(used := m.used - Owned(m, pd))
  }

  /** Copy the pages of table src into table dst from index j on; the index reached, 1024 if all. */
  function CloneTable(m: Machine, src: FrameNo, dst: FrameNo, j: nat): (r: (Machine, nat))
    requires j <= ENTRIES
    decreases ENTRIES - j
  {
    if j == ENTRIES then (m, j)
    else if !m.mem[src][j].flags.present then CloneTable(Write(m, dst, j, ZERO), src, dst, j + 1)
    else
      var (m1, f) := Alloc(m);
      if f == 0 then (m1, j)
      else
        var m2 := WriteFrame(m1, f, m1.mem[m1.mem[src][j].frame]);
        CloneTable(Write(m2, dst, j, Word(f, m2.mem[src][j].flags)), src, dst, j + 1)
  }

  /** Roll back a table whose pages could not all be copied, then the directory. */
  function RollBack(m: Machine, pd: FrameNo, t: FrameNo): Machine
  {
    Destroy(m.(used := m.used - LeafFrames(m, t, ENTRIES) - {t}), pd)
  }

  /** Copy the private slots of src into dst from slot i on; false after a failure rolled back. */
  function CloneDir(m: Machine, src: FrameNo, dst: FrameNo, i: nat): (Machine, bool)
    requires i <= ENTRIES
    decreases ENTRIES - i
  {
    if i == ENTRIES then (m, true)
    else if !Private(m, src, i) then CloneDir(m, src, dst, i + 1)
    else
      var (m1, t) := Alloc(m);
      if t == 0 then (Destroy(m1, dst), false)
      else
        var (m2, n) := CloneTable(m1, m1.mem[src][i].frame, t, 0);
        if n < ENTRIES then (RollBack(m2, dst, t), false)
        else CloneDir(Write(m2, dst, i, Word(t, m2.mem[src][i].flags)), src, dst, i + 1)
  }

  /** vmm_clone_address_space: the new directory, or null. */
  function Clone(m: Machine, pd: FrameNo): (Machine, FrameNo)
  {
    var (m1, dst) := Create(m);
    if dst == 0 then (m1, 0)
    else
      var (m2, ok) := CloneDir(m1, pd, dst, 0);
      (m2, if ok then dst else 0)
  }
}
