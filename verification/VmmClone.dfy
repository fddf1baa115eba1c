/**
 Cloning an address space: the copy, what it leaves alone, and its rollback.
 */
module VmmClone {
  import opened VmmModel
  import opened VmmInvariant

  /** Entry k of dst is a private copy of entry k of src: same flags, its own frame, same contents. */
  ghost predicate CopiedEntry(m: Machine, r: Machine, src: FrameNo, dst: FrameNo, k: nat)
    requires k < ENTRIES
  {
    var e, c := m.mem[src][k], r.mem[dst][k];
    if !e.flags.present then c == ZERO
    else c.flags == e.flags && c.frame !in m.used && c.frame in r.used && r.mem[c.frame] == m.mem[e.frame]
  }

  /** Every used frame other than dst keeps its contents. */
  ghost predicate KeepsUsed(m: Machine, r: Machine, dst: nat)
  {
    && r.kernel == m.kernel && r.total == m.total && m.used <= r.used
    && forall f: FrameNo :: f in m.used && f != dst ==> r.mem[f] == m.mem[f]
  }

  /** A table whose frame and pages are used, none of them being dst. */
  ghost predicate SourceTable(m: Machine, src: FrameNo, dst: FrameNo)
  {
    && Sane(m) && src in m.used && dst in m.used && src != dst
    && forall k :: 0 <= k < ENTRIES && m.mem[src][k].flags.present ==>
      m.mem[src][k].frame in m.used && m.mem[src][k].frame != dst
  }

  /** New frames are exactly those named by entries j..n of dst. */
  ghost predicate TookExactly(m: Machine, r: Machine, dst: FrameNo, j: nat, n: nat)
    requires n <= ENTRIES
  {
    forall f :: f in r.used <==>
      f in m.used || exists k :: j <= k < n && r.mem[dst][k].flags.present && r.mem[dst][k].frame == f
  }

  ghost predicate TableCopied(m: Machine, r: Machine, src: FrameNo, dst: FrameNo, j: nat, n: nat)
  {
    && Sane(r) && KeepsUsed(m, r, dst) && j <= n <= ENTRIES
    && (forall k :: 0 <= k < j || n <= k < ENTRIES ==> r.mem[dst][k] == m.mem[dst][k])
    && (forall k :: j <= k < n ==> CopiedEntry(m, r, src, dst, k))
    && TookExactly(m, r, dst, j, n)
  }

  /** Copying one present entry. */
  function CopyEntry(m: Machine, src: FrameNo, dst: FrameNo, j: nat): Machine
    requires j < ENTRIES
  {
    var (m1, f) := Alloc(m);
    var m2 := WriteFrame(m1, f, m1.mem[m1.mem[src][j].frame]);
    Write(m2, dst, j, Word(f, m2.mem[src][j].flags))
  }

  lemma CopyEntryStep(m: Machine, src: FrameNo, dst: FrameNo, j: nat)
    requires SourceTable(m, src, dst) && j < ENTRIES && m.mem[src][j].flags.present && Alloc(m).1 != 0
    ensures var r := CopyEntry(m, src, dst, j);
      && SourceTable(r, src, dst) && TableCopied(m, r, src, dst, j, j + 1)
      && r.used == m.used + {Alloc(m).1} && r.mem[dst][j].frame == Alloc(m).1 && Alloc(m).1 !in m.used
  {
    AllocFresh(m);
    var r := CopyEntry(m, src, dst, j);
    assert r.mem[dst] == m.mem[dst][j := Word(Alloc(m).1, m.mem[src][j].flags)];
    assert TookExactly(m, r, dst, j, j + 1) by { assert r.mem[dst][j].flags.present; }
  }

  lemma TableCopiedTrans(m: Machine, m1: Machine, r: Machine, src: FrameNo, dst: FrameNo, j: nat, n: nat)
    requires SourceTable(m, src, dst) && j < ENTRIES
    requires TableCopied(m, m1, src, dst, j, j + 1) && TableCopied(m1, r, src, dst, j + 1, n)
    ensures TableCopied(m, r, src, dst, j, n)
  {
    assert CopiedEntry(m, m1, src, dst, j);
    assert r.mem[dst][j] == m1.mem[dst][j];
    assert m1.mem[src] == m.mem[src];
    assert CopiedEntry(m, r, src, dst, j);
    forall k | j < k < n ensures CopiedEntry(m, r, src, dst, k) {
      assert CopiedEntry(m1, r, src, dst, k);
    }
    forall f
      ensures f in r.used <==>
        f in m.used || exists k :: j <= k < n && r.mem[dst][k].flags.present && r.mem[dst][k].frame == f
    {
      if f in m1.used && f !in m.used {
        assert r.mem[dst][j].flags.present && r.mem[dst][j].frame == f;
      }
    }
  }

  /** The pages named by entries j up to n of dst are labelled for them, and labels grew by the frames taken. */
  ghost predicate CopyLabels(m: Machine, r: Machine, dst: FrameNo, j: nat, n: nat, own: map<nat, Role>,
                             own': map<nat, Role>, pd: FrameNo, i: nat)
    requires n <= ENTRIES
  {
    && Extends(own, own') && own'.Keys == own.Keys + (r.used - m.used) && 0 !in own'
    && (forall k :: j <= k < n && r.mem[dst][k].flags.present ==> Labelled(own', r.mem[dst][k].frame, Page(pd, i, k)))
  }

  /** An absent entry is cleared, and copying goes on. */
  lemma CopyAbsent(m: Machine, r: Machine, src: FrameNo, dst: FrameNo, j: nat, n: nat, own: map<nat, Role>,
                   own': map<nat, Role>, pd: FrameNo, i: nat)
    requires SourceTable(m, src, dst) && j < ENTRIES && !m.mem[src][j].flags.present && j + 1 <= n <= ENTRIES
    requires TableCopied(Write(m, dst, j, ZERO), r, src, dst, j + 1, n)
    requires CopyLabels(Write(m, dst, j, ZERO), r, dst, j + 1, n, own, own', pd, i)
    ensures TableCopied(m, r, src, dst, j, n) && CopyLabels(m, r, dst, j, n, own, own', pd, i)
  {
    TableCopiedTrans(m, Write(m, dst, j, ZERO), r, src, dst, j, n);
    assert r.mem[dst][j] == ZERO;
  }

  /** A present entry gets a page of its own, and copying goes on. */
  lemma CopyPresent(m: Machine, m1: Machine, r: Machine, src: FrameNo, dst: FrameNo, j: nat, n: nat,
                    own: map<nat, Role>, own': map<nat, Role>, pd: FrameNo, i: nat, f: FrameNo)
    requires SourceTable(m, src, dst) && j < ENTRIES && j + 1 <= n <= ENTRIES && own.Keys <= m.used
    requires TableCopied(m, m1, src, dst, j, j + 1) && m1.used == m.used + {f} && f !in m.used
    requires m1.mem[dst][j].frame == f
    requires TableCopied(m1, r, src, dst, j + 1, n)
    requires CopyLabels(m1, r, dst, j + 1, n, own[f := Page(pd, i, j)], own', pd, i)
    ensures TableCopied(m, r, src, dst, j, n) && CopyLabels(m, r, dst, j, n, own, own', pd, i)
  {
    TableCopiedTrans(m, m1, r, src, dst, j, n);
    assert r.mem[dst][j] == m1.mem[dst][j];
    assert Labelled(own', f, Page(pd, i, j));
  }

  /** The copy loop over one table: copies entries in order until done or out of frames. */
  lemma {:induction false} CloneTableCopies(m: Machine, src: FrameNo, dst: FrameNo, j: nat, own: map<nat, Role>,
                                            pd: FrameNo, i: nat)
    returns (r: Machine, n: nat, own': map<nat, Role>)
    requires SourceTable(m, src, dst) && j <= ENTRIES && own.Keys <= m.used && 0 !in own
    ensures CloneTable(m, src, dst, j) == (r, n) && TableCopied(m, r, src, dst, j, n)
    ensures CopyLabels(m, r, dst, j, n, own, own', pd, i)
    ensures n < ENTRIES ==> Alloc(r).1 == 0
    decreases ENTRIES - j
  {
    r, n, own' := m, j, own;
    if j < ENTRIES {
      if !m.mem[src][j].flags.present {
        r, n, own' := CloneTableCopies(Write(m, dst, j, ZERO), src, dst, j + 1, own, pd, i);
        CopyAbsent(m, r, src, dst, j, n, own, own', pd, i);
      } else if Alloc(m).1 != 0 {
        CopyEntryStep(m, src, dst, j);
        var m1, f := CopyEntry(m, src, dst, j), Alloc(m).1;
        r, n, own' := CloneTableCopies(m1, src, dst, j + 1, own[f := Page(pd, i, j)], pd, i);
        CopyPresent(m, m1, r, src, dst, j, n, own, own', pd, i, f);
      } else {
        AllocFresh(m);
      }
    }
  }

  // ---------------------------------------------------------------- the directory

  /** The directory, the kernel's tables, and the private tables and pages of pd are in used frames. */
  ghost predicate SourceSpace(m: Machine, pd: FrameNo)
  {
    && Sane(m) && pd in m.used && m.kernel in m.used
    && (forall h :: 0 <= h < ENTRIES && m.mem[m.kernel][h].flags.present ==> m.mem[m.kernel][h].frame in m.used)
    && (forall h :: 0 <= h < ENTRIES && Private(m, pd, h) ==> m.mem[pd][h].frame in m.used)
    && (forall h, k ::
      0 <= h < ENTRIES && 0 <= k < ENTRIES && Private(m, pd, h) && Leaf(m, pd, h, k).flags.present ==>
        Leaf(m, pd, h, k).frame in m.used)
  }

  /** Slot h of dst is a private deep copy of slot h of pd, or the kernel's slot. */
  ghost predicate ClonedSlot(m: Machine, r: Machine, pd: FrameNo, dst: FrameNo, h: nat)
    requires h < ENTRIES
  {
    if Private(m, pd, h) then
      && Private(r, dst, h) && r.mem[dst][h].flags == m.mem[pd][h].flags
      && r.mem[dst][h].frame !in m.used && r.mem[dst][h].frame in r.used
      && TableCloned(m, r, m.mem[pd][h].frame, r.mem[dst][h].frame)
    else KernelsSlot(m, r.mem[dst][h], h)
  }

  /** The word is slot h of the kernel's directory if that is present, and zero otherwise. */
  ghost predicate KernelsSlot(m: Machine, w: Word, h: nat)
    requires h < ENTRIES
  {
    if m.mem[m.kernel][h].flags.present then w == m.mem[m.kernel][h] else w == Word(0, Flags(false, false, false, 0))
  }

  ghost predicate TableCloned(m: Machine, r: Machine, src: FrameNo, t: FrameNo)
  {
    forall k :: 0 <= k < ENTRIES ==> CopiedEntry(m, r, src, t, k)
  }

  ghost predicate SlotLabels(r: Machine, own: map<nat, Role>, dst: FrameNo)
  {
    && (forall h :: 0 <= h < ENTRIES ==> SlotOk(r, own, dst, h))
    && (forall h, k :: 0 <= h < ENTRIES && 0 <= k < ENTRIES ==> PageOk(r, own, dst, h, k))
  }

  /** The clone of m in progress: slots below i are copied, the rest still the kernel's. */
  ghost predicate Progress(m: Machine, r: Machine, pd: FrameNo, dst: FrameNo, i: nat)
  {
    && Sane(r) && KeepsUsed(m, r, dst) && i <= ENTRIES
    && dst in r.used && dst !in m.used
    && (forall h :: 0 <= h < i ==> ClonedSlot(m, r, pd, dst, h))
    && (forall h :: i <= h < ENTRIES ==> r.mem[dst][h] == KernelSlots(m)[h])
    && r.used == m.used + TableFrames(r, dst, i) + {dst}
  }

  /** The labels of the clone in progress. */
  ghost predicate Labels(m: Machine, r: Machine, own: map<nat, Role>, own': map<nat, Role>, dst: FrameNo)
  {
    && Extends(own, own') && own'.Keys == own.Keys + (r.used - m.used) && 0 !in own'
    && Labelled(own', dst, Dir) && SlotLabels(r, own', dst)
  }

  lemma CreateStartsClone(m: Machine, pd: FrameNo, own: map<nat, Role>) returns (own': map<nat, Role>)
    requires SourceSpace(m, pd) && own.Keys <= m.used && 0 !in own && Create(m).1 != 0
    ensures var (r, dst) := Create(m);
      && Progress(m, r, pd, dst, 0) && Labels(m, r, own, own', dst) && own' == own[dst := Dir]
  {
    AllocFresh(m);
    own' := own[Alloc(m).1 := Dir];
  }

  /** Frames still in use keep what was copied into them. */
  lemma ClonedSlotKept(m: Machine, r: Machine, r': Machine, pd: FrameNo, dst: FrameNo, h: nat)
    requires h < ENTRIES && ClonedSlot(m, r, pd, dst, h) && KeepsUsed(r, r', dst) && r'.mem[dst][h] == r.mem[dst][h]
    requires r.kernel in r.used && r.kernel != dst && m.kernel == r.kernel && dst !in m.used
    requires Private(m, pd, h) ==> m.mem[pd][h].frame in m.used && r.mem[dst][h].frame != dst
    requires Private(m, pd, h) ==> forall k :: 0 <= k < ENTRIES && r.mem[r.mem[dst][h].frame][k].flags.present ==>
      r.mem[r.mem[dst][h].frame][k].frame != dst
    ensures ClonedSlot(m, r', pd, dst, h)
  {
    if Private(m, pd, h) {
      var src, t := m.mem[pd][h].frame, r.mem[dst][h].frame;
      assert r'.mem[t] == r.mem[t];
      forall k | 0 <= k < ENTRIES ensures CopiedEntry(m, r', src, t, k) {
        assert CopiedEntry(m, r, src, t, k);
      }
    }
  }

  lemma {:induction false} LeafFramesSame(m: Machine, r: Machine, t: FrameNo, n: nat)
    requires n <= ENTRIES && r.mem[t] == m.mem[t]
    ensures LeafFrames(r, t, n) == LeafFrames(m, t, n)
  {
    if n > 0 { LeafFramesSame(m, r, t, n - 1); }
  }

  lemma {:induction false} TableFramesSame(m: Machine, r: Machine, pd: FrameNo, n: nat)
    requires n <= ENTRIES && r.kernel == m.kernel && r.mem[m.kernel] == m.mem[m.kernel]
    requires forall h :: 0 <= h < n ==> r.mem[pd][h] == m.mem[pd][h]
    requires forall h :: 0 <= h < n && Private(m, pd, h) ==> r.mem[m.mem[pd][h].frame] == m.mem[m.mem[pd][h].frame]
    ensures TableFrames(r, pd, n) == TableFrames(m, pd, n)
  {
    if n > 0 {
      TableFramesSame(m, r, pd, n - 1);
      if Private(m, pd, n - 1) { LeafFramesSame(m, r, m.mem[pd][n - 1].frame, ENTRIES); }
    }
  }

  /** Slot i of the clone is about to be filled with table t, a full copy made in r2. */
  ghost predicate Filling(m: Machine, r: Machine, r2: Machine, pd: FrameNo, dst: FrameNo, i: nat, t: FrameNo)
  {
    && SourceSpace(m, pd) && Progress(m, r, pd, dst, i) && i < ENTRIES && Private(m, pd, i)
    && t !in r.used && TableCopied(r.(used := r.used + {t}), r2, m.mem[pd][i].frame, t, 0, ENTRIES)
  }

  function Filled(m: Machine, r2: Machine, pd: FrameNo, dst: FrameNo, i: nat, t: FrameNo): Machine
    requires i < ENTRIES
  {
    Write(r2, dst, i, Word(t, m.mem[pd][i].flags))
  }

  lemma FillKeeps(m: Machine, r: Machine, r2: Machine, pd: FrameNo, dst: FrameNo, i: nat, t: FrameNo)
    requires Filling(m, r, r2, pd, dst, i, t)
    ensures var r' := Filled(m, r2, pd, dst, i, t);
      && Sane(r') && KeepsUsed(m, r', dst) && KeepsUsed(r, r', dst) && dst in r'.used
      && r'.mem[t] == r2.mem[t] && r'.mem[dst] == r.mem[dst][i := Word(t, m.mem[pd][i].flags)]
      && r'.mem[m.kernel] == m.mem[m.kernel] && r.mem[m.kernel] == m.mem[m.kernel]
  {
  }

  lemma FillClonesSlot(m: Machine, r: Machine, r2: Machine, pd: FrameNo, dst: FrameNo, i: nat, t: FrameNo)
    requires Filling(m, r, r2, pd, dst, i, t)
    ensures ClonedSlot(m, Filled(m, r2, pd, dst, i, t), pd, dst, i)
  {
    FillKeeps(m, r, r2, pd, dst, i, t);
    var r' := Filled(m, r2, pd, dst, i, t);
    var src, r1 := m.mem[pd][i].frame, r.(used := r.used + {t});
    forall k | 0 <= k < ENTRIES ensures CopiedEntry(m, r', src, t, k) {
      assert CopiedEntry(r1, r2, src, t, k);
      assert r1.mem[src] == m.mem[src];
      if m.mem[src][k].flags.present {
        assert Leaf(m, pd, i, k) == m.mem[src][k];
        assert r2.mem[t][k].frame != dst;
      }
    }
  }

  /** Tables and pages of the clone carry labels, so none of them is its directory. */
  lemma ClonedFramesAreNotDir(m: Machine, r: Machine, own: map<nat, Role>, own': map<nat, Role>, pd: FrameNo,
                              dst: FrameNo, i: nat, h: nat)
    requires Progress(m, r, pd, dst, i) && Labels(m, r, own, own', dst) && h < i && Private(m, pd, h)
    ensures Private(r, dst, h) && r.mem[dst][h].frame != dst && r.mem[dst][h].frame in r.used
    ensures forall k :: 0 <= k < ENTRIES && r.mem[r.mem[dst][h].frame][k].flags.present ==>
      r.mem[r.mem[dst][h].frame][k].frame != dst
  {
    assert ClonedSlot(m, r, pd, dst, h);
    assert SlotOk(r, own', dst, h);
    forall k | 0 <= k < ENTRIES && r.mem[r.mem[dst][h].frame][k].flags.present
      ensures r.mem[r.mem[dst][h].frame][k].frame != dst
    {
      assert PageOk(r, own', dst, h, k);
    }
  }

  lemma FillKeepsSlots(m: Machine, r: Machine, r2: Machine, pd: FrameNo, dst: FrameNo, i: nat, t: FrameNo,
                       own: map<nat, Role>, own': map<nat, Role>)
    requires Filling(m, r, r2, pd, dst, i, t) && Labels(m, r, own, own', dst)
    ensures forall h :: 0 <= h < i ==> ClonedSlot(m, Filled(m, r2, pd, dst, i, t), pd, dst, h)
  {
    FillKeeps(m, r, r2, pd, dst, i, t);
    forall h | 0 <= h < i ensures ClonedSlot(m, Filled(m, r2, pd, dst, i, t), pd, dst, h) {
      if Private(m, pd, h) { ClonedFramesAreNotDir(m, r, own, own', pd, dst, i, h); }
      ClonedSlotKept(m, r, Filled(m, r2, pd, dst, i, t), pd, dst, h);
    }
  }

  lemma {:induction false} FillUses(m: Machine, r: Machine, r2: Machine, pd: FrameNo, dst: FrameNo, i: nat,
                                    t: FrameNo, own: map<nat, Role>, own': map<nat, Role>)
    requires Filling(m, r, r2, pd, dst, i, t) && Labels(m, r, own, own', dst)
    ensures var r' := Filled(m, r2, pd, dst, i, t); r'.used == m.used + TableFrames(r', dst, i + 1) + {dst}
  {
    FillKeeps(m, r, r2, pd, dst, i, t);
    FillClonesSlot(m, r, r2, pd, dst, i, t);
    var r' := Filled(m, r2, pd, dst, i, t);
    forall h | 0 <= h < i && Private(r, dst, h) ensures r'.mem[r.mem[dst][h].frame] == r.mem[r.mem[dst][h].frame] {
      assert ClonedSlot(m, r, pd, dst, h);
      ClonedFramesAreNotDir(m, r, own, own', pd, dst, i, h);
    }
    TableFramesSame(r, r', dst, i);
    forall f ensures f in r2.used <==> f in r.used || f == t || f in LeafFrames(r', t, ENTRIES) {
      LeafFramesMember(r', t, ENTRIES, f);
    }
  }

  /** What labelling a copied slot needs: labels for its table and pages, beside those there were. */
  ghost predicate FillLabelled(r: Machine, r2: Machine, dst: FrameNo, i: nat, t: FrameNo, own1: map<nat, Role>,
                               own': map<nat, Role>)
  {
    && Extends(own1[t := Table(dst, i)], own') && own'.Keys == own1.Keys + {t} + (r2.used - r.used - {t})
    && 0 !in own' && t !in own1
    && (forall k :: 0 <= k < ENTRIES && r2.mem[t][k].flags.present ==>
      Labelled(own', r2.mem[t][k].frame, Page(dst, i, k)))
  }

  lemma FillSlotLabels(m: Machine, r: Machine, r2: Machine, pd: FrameNo, dst: FrameNo, i: nat, t: FrameNo,
                       own: map<nat, Role>, own1: map<nat, Role>, own': map<nat, Role>, h: nat)
    requires Filling(m, r, r2, pd, dst, i, t) && Labels(m, r, own, own1, dst)
    requires FillLabelled(r, r2, dst, i, t, own1, own') && h < ENTRIES
    ensures SlotOk(Filled(m, r2, pd, dst, i, t), own', dst, h)
  {
    FillKeeps(m, r, r2, pd, dst, i, t);
    assert SlotOk(r, own1, dst, h);
  }

  lemma FillPageLabels(m: Machine, r: Machine, r2: Machine, pd: FrameNo, dst: FrameNo, i: nat, t: FrameNo,
                       own: map<nat, Role>, own1: map<nat, Role>, own': map<nat, Role>, h: nat, k: nat)
    requires Filling(m, r, r2, pd, dst, i, t) && Labels(m, r, own, own1, dst)
    requires FillLabelled(r, r2, dst, i, t, own1, own')
    requires h < ENTRIES && k < ENTRIES
    ensures PageOk(Filled(m, r2, pd, dst, i, t), own', dst, h, k)
  {
    FillKeeps(m, r, r2, pd, dst, i, t);
    assert PageOk(r, own1, dst, h, k);
    if h < i && Private(r, dst, h) {
      assert ClonedSlot(m, r, pd, dst, h);
      ClonedFramesAreNotDir(m, r, own, own1, pd, dst, i, h);
      assert Filled(m, r2, pd, dst, i, t).mem[r.mem[dst][h].frame] == r.mem[r.mem[dst][h].frame];
    }
  }

  lemma FillLabels(m: Machine, r: Machine, r2: Machine, pd: FrameNo, dst: FrameNo, i: nat, t: FrameNo,
                   own: map<nat, Role>, own1: map<nat, Role>, own': map<nat, Role>)
    requires Filling(m, r, r2, pd, dst, i, t) && Labels(m, r, own, own1, dst)
    requires FillLabelled(r, r2, dst, i, t, own1, own')
    ensures Labels(m, Filled(m, r2, pd, dst, i, t), own, own', dst)
  {
    var r' := Filled(m, r2, pd, dst, i, t);
    forall h | 0 <= h < ENTRIES
      ensures SlotOk(r', own', dst, h)
    {
      FillSlotLabels(m, r, r2, pd, dst, i, t, own, own1, own', h);
    }
    forall h, k | 0 <= h < ENTRIES && 0 <= k < ENTRIES ensures PageOk(r', own', dst, h, k) {
      FillPageLabels(m, r, r2, pd, dst, i, t, own, own1, own', h, k);
    }
  }

  /** One more slot filled is one more slot of progress. */
  lemma FilledProgress(m: Machine, r: Machine, r2: Machine, pd: FrameNo, dst: FrameNo, i: nat, t: FrameNo,
                       own: map<nat, Role>, own1: map<nat, Role>)
    requires Filling(m, r, r2, pd, dst, i, t) && Labels(m, r, own, own1, dst)
    ensures Progress(m, Filled(m, r2, pd, dst, i, t), pd, dst, i + 1)
  {
    FillKeeps(m, r, r2, pd, dst, i, t);
    FillClonesSlot(m, r, r2, pd, dst, i, t);
    FillKeepsSlots(m, r, r2, pd, dst, i, t, own, own1);
    FillUses(m, r, r2, pd, dst, i, t, own, own1);
  }

  /** The full copy of the table of slot i makes it ready to be filled in. */
  lemma StartsFilling(m: Machine, r: Machine, pd: FrameNo, dst: FrameNo, i: nat, own: map<nat, Role>,
                      own1: map<nat, Role>)
    returns (r2: Machine, own': map<nat, Role>)
    requires SourceSpace(m, pd) && Progress(m, r, pd, dst, i) && Labels(m, r, own, own1, dst) && i < ENTRIES
    requires Private(r, pd, i) && Alloc(r).1 != 0 && own.Keys <= m.used
    requires CloneTable(Alloc(r).0, r.mem[pd][i].frame, Alloc(r).1, 0).1 == ENTRIES
    ensures r2 == CloneTable(Alloc(r).0, Alloc(r).0.mem[pd][i].frame, Alloc(r).1, 0).0 && r2.mem[pd] == m.mem[pd]
    ensures Filling(m, r, r2, pd, dst, i, Alloc(r).1) && FillLabelled(r, r2, dst, i, Alloc(r).1, own1, own')
  {
    AllocFresh(r);
    var (r1, t) := Alloc(r);
    assert Private(m, pd, i) && r.mem[pd] == m.mem[pd];
    TableIsSource(m, r, pd, dst, i, t);
    var n;
    r2, n, own' := CloneTableCopies(r1, m.mem[pd][i].frame, t, 0, own1[t := Table(dst, i)], dst, i);
  }

  /** One more private slot copied. */
  lemma FillProgress(m: Machine, r: Machine, pd: FrameNo, dst: FrameNo, i: nat, own: map<nat, Role>,
                     own1: map<nat, Role>)
    returns (own': map<nat, Role>)
    requires SourceSpace(m, pd) && Progress(m, r, pd, dst, i) && Labels(m, r, own, own1, dst) && i < ENTRIES
    requires Private(r, pd, i) && Alloc(r).1 != 0 && own.Keys <= m.used
    requires CloneTable(Alloc(r).0, r.mem[pd][i].frame, Alloc(r).1, 0).1 == ENTRIES
    ensures var (r1, t) := Alloc(r);
      var r2 := CloneTable(r1, r1.mem[pd][i].frame, t, 0).0;
      var r' := Write(r2, dst, i, Word(t, r2.mem[pd][i].flags));
      Progress(m, r', pd, dst, i + 1) && Labels(m, r', own, own', dst)
  {
    var r2;
    r2, own' := StartsFilling(m, r, pd, dst, i, own, own1);
    FilledProgress(m, r, r2, pd, dst, i, Alloc(r).1, own, own1);
    FillLabels(m, r, r2, pd, dst, i, Alloc(r).1, own, own1, own');
  }

  lemma TableIsSource(m: Machine, r: Machine, pd: FrameNo, dst: FrameNo, i: nat, t: FrameNo)
    requires SourceSpace(m, pd) && Progress(m, r, pd, dst, i) && i < ENTRIES && Private(m, pd, i) && t !in r.used
    requires t < r.total
    ensures SourceTable(r.(used := r.used + {t}), m.mem[pd][i].frame, t)
  {
    var src := m.mem[pd][i].frame;
    assert r.mem[src] == m.mem[src];
    forall k | 0 <= k < ENTRIES && m.mem[src][k].flags.present ensures m.mem[src][k].frame in m.used {
      assert Leaf(m, pd, i, k) == m.mem[src][k];
    }
  }

  // ---------------------------------------------------------------- failure

  /** Frames named by what entries n and up of frame t happened to hold. */
  function StaleIn(m: Machine, t: FrameNo, n: nat): set<nat>
    requires n <= ENTRIES
    decreases ENTRIES - n
  {
    if n == ENTRIES then {}
    else StaleIn(m, t, n + 1) + if m.mem[t][n].flags.present then {m.mem[t][n].frame} else {}
  }

  /** How the directory loop ends: with all slots copied, without a frame for a table, or inside table t at entry n. */
  datatype Halt = Complete | NoFrame | InTable(t: FrameNo, n: nat)

  function HaltOf(m: Machine, src: FrameNo, dst: FrameNo, i: nat): (h: Halt)
    requires i <= ENTRIES
    ensures h.InTable? ==> h.n < ENTRIES
    decreases ENTRIES - i
  {
    if i == ENTRIES then Complete
    else if !Private(m, src, i) then HaltOf(m, src, dst, i + 1)
    else
      var (m1, t) := Alloc(m);
      if t == 0 then NoFrame
      else
        var (m2, n) := CloneTable(m1, m1.mem[src][i].frame, t, 0);
        if n < ENTRIES then InTable(t, n)
        else HaltOf(Write(m2, dst, i, Word(t, m2.mem[src][i].flags)), src, dst, i + 1)
  }

  /** Frames named by the words that the rollback of a half-copied table mistakes for entries. */
  function StaleAt(m: Machine, h: Halt): set<nat>
    requires h.InTable? ==> h.n <= ENTRIES
  {
    if h.InTable? then StaleIn(m, h.t, h.n) else {}
  }

  /** Frames still free hold what they held at the start. */
  ghost predicate Untouched(m: Machine, r: Machine) { forall f: FrameNo :: f !in r.used ==> r.mem[f] == m.mem[f] }

  lemma {:induction false} CloneTableUntouched(m0: Machine, m: Machine, src: FrameNo, dst: FrameNo, j: nat)
    requires Sane(m) && dst in m.used && j <= ENTRIES && Untouched(m0, m)
    ensures Untouched(m0, CloneTable(m, src, dst, j).0)
    decreases ENTRIES - j
  {
    if j < ENTRIES {
      if !m.mem[src][j].flags.present {
        CloneTableUntouched(m0, Write(m, dst, j, ZERO), src, dst, j + 1);
      } else {
        AllocFresh(m);
        if Alloc(m).1 != 0 { CloneTableUntouched(m0, CopyEntry(m, src, dst, j), src, dst, j + 1); }
      }
    }
  }

  lemma {:induction false} StaleInSame(m: Machine, r: Machine, t: FrameNo, n: nat)
    requires n <= ENTRIES && r.mem[t] == m.mem[t]
    ensures StaleIn(r, t, n) == StaleIn(m, t, n)
    decreases ENTRIES - n
  {
    if n < ENTRIES { StaleInSame(m, r, t, n + 1); }
  }

  lemma {:induction false} StaleInMember(m: Machine, t: FrameNo, n: nat, f: nat)
    requires n <= ENTRIES
    ensures f in StaleIn(m, t, n) <==>
      exists k :: n <= k < ENTRIES && m.mem[t][k].flags.present && m.mem[t][k].frame == f
    decreases ENTRIES - n
  {
    if n < ENTRIES { StaleInMember(m, t, n + 1, f); }
  }

  /** Unfilled slots are not private, so the whole directory owns what its filled slots own. */
  lemma {:induction false} UnfilledOwnsNothing(m: Machine, r: Machine, pd: FrameNo, dst: FrameNo, i: nat, n: nat)
    requires Progress(m, r, pd, dst, i) && i <= n <= ENTRIES && m.kernel in m.used
    ensures TableFrames(r, dst, n) == TableFrames(r, dst, i)
  {
    if n > i {
      UnfilledOwnsNothing(m, r, pd, dst, i, n - 1);
      assert r.mem[dst][n - 1] == KernelSlots(m)[n - 1];
      assert !Private(r, dst, n - 1);
    }
  }

  /** Destroying a clone in progress gives back exactly what it took. */
  lemma DestroyUndoesProgress(m: Machine, r: Machine, pd: FrameNo, dst: FrameNo, i: nat, own: map<nat, Role>,
                              own': map<nat, Role>)
    requires SourceSpace(m, pd) && Progress(m, r, pd, dst, i) && Labels(m, r, own, own', dst) && own.Keys <= m.used
    ensures Owned(r, dst) !! m.used
    ensures Destroy(r, dst).used == m.used
  {
    UnfilledOwnsNothing(m, r, pd, dst, i, ENTRIES);
    forall f | f in Owned(r, dst) ensures f !in m.used {
      if f != dst { ClonedFrameIsNew(m, r, pd, dst, i, f); }
    }
  }

  lemma {:induction false} ClonedFrameIsNew(m: Machine, r: Machine, pd: FrameNo, dst: FrameNo, i: nat, f: nat)
    requires Progress(m, r, pd, dst, i) && f in TableFrames(r, dst, i) && m.kernel in m.used
    ensures f !in m.used
  {
    TableFramesMember(r, dst, i, f);
    var h :| 0 <= h < i && OwnedThrough(r, dst, h, f);
    assert ClonedSlot(m, r, pd, dst, h);
    var t := r.mem[dst][h].frame;
    if f != t {
      LeafFramesMember(r, t, ENTRIES, f);
      var k :| 0 <= k < ENTRIES && r.mem[t][k].flags.present && r.mem[t][k].frame == f;
      assert CopiedEntry(m, r, m.mem[pd][h].frame, t, k);
    }
  }

  /** A slot the loop skips is already as the clone wants it. */
  lemma SkipProgress(m: Machine, r: Machine, pd: FrameNo, dst: FrameNo, i: nat)
    requires SourceSpace(m, pd) && Progress(m, r, pd, dst, i) && i < ENTRIES && !Private(r, pd, i)
    ensures Progress(m, r, pd, dst, i + 1)
  {
    assert r.mem[pd] == m.mem[pd] && !Private(m, pd, i);
    assert r.mem[dst][i] == KernelSlots(m)[i];
    assert ClonedSlot(m, r, pd, dst, i);
    UnfilledOwnsNothing(m, r, pd, dst, i, i + 1);
  }

  /** The copy loop on the table of slot i, started from a fresh frame t. */
  lemma TableAttempt(m: Machine, r: Machine, pd: FrameNo, dst: FrameNo, i: nat, own: map<nat, Role>,
                     own1: map<nat, Role>)
    requires SourceSpace(m, pd) && Progress(m, r, pd, dst, i) && Labels(m, r, own, own1, dst) && i < ENTRIES
    requires Private(r, pd, i) && Alloc(r).1 != 0 && own.Keys <= m.used
    ensures var (r1, t) := Alloc(r);
      var (r2, n) := CloneTable(r1, r1.mem[pd][i].frame, t, 0);
      && r1 == r.(used := r.used + {t}) && t !in r.used
      && TableCopied(r1, r2, r1.mem[pd][i].frame, t, 0, n)
  {
    AllocFresh(r);
    var (r1, t) := Alloc(r);
    assert Private(m, pd, i) && r.mem[pd] == m.mem[pd];
    TableIsSource(m, r, pd, dst, i, t);
    var r2, n, own2 := CloneTableCopies(r1, m.mem[pd][i].frame, t, 0, own1[t := Table(dst, i)], dst, i);
  }

  /** Rolling back a half-copied table leaves the frames used before, less the stale ones. */
  lemma {:induction false} RollBackReleases(m: Machine, r: Machine, r2: Machine, pd: FrameNo, dst: FrameNo, i: nat,
                                            t: FrameNo, n: nat, src: FrameNo, own: map<nat, Role>, own1: map<nat, Role>)
    requires SourceSpace(m, pd) && Progress(m, r, pd, dst, i) && Labels(m, r, own, own1, dst) && own.Keys <= m.used
    requires t !in r.used && TableCopied(r.(used := r.used + {t}), r2, src, t, 0, n)
    ensures var q := RollBack(r2, dst, t);
      && q.used == m.used - StaleIn(r, t, n) && q.kernel == m.kernel && q.total == m.total
      && (forall f: FrameNo :: f in m.used ==> q.mem[f] == m.mem[f])
  {
    HalfTable(r, r2, src, t, n);
    HalfCloneOwns(m, r, r2, pd, dst, i, own, own1, t);
    DestroyUndoesProgress(m, r, pd, dst, i, own, own1);
    UnfilledOwnsNothing(m, r, pd, dst, i, ENTRIES);
    var r3 := r2.(used := r2.used - LeafFrames(r2, t, ENTRIES) - {t});
    TableFramesSame(r2, r3, dst, ENTRIES);
    assert Owned(r3, dst) == Owned(r, dst);
    assert dst != 0 && dst != m.kernel;
  }

  lemma {:induction false} HalfCloneOwns(m: Machine, r: Machine, r2: Machine, pd: FrameNo, dst: FrameNo, i: nat,
                                         own: map<nat, Role>, own1: map<nat, Role>, t: FrameNo)
    requires SourceSpace(m, pd) && Progress(m, r, pd, dst, i) && Labels(m, r, own, own1, dst) && own.Keys <= m.used
    requires t !in r.used && KeepsUsed(r.(used := r.used + {t}), r2, t)
    ensures TableFrames(r2, dst, ENTRIES) == TableFrames(r, dst, ENTRIES) && r2.mem[m.kernel] == m.mem[m.kernel]
  {
    forall h | 0 <= h < ENTRIES && Private(r, dst, h)
      ensures r2.mem[r.mem[dst][h].frame] == r.mem[r.mem[dst][h].frame]
    {
      assert SlotOk(r, own1, dst, h);
    }
    TableFramesSame(r, r2, dst, ENTRIES);
  }

  /** What the rollback loop releases: the pages copied so far and whatever the stale entries name. */
  lemma {:induction false} HalfTable(r: Machine, r2: Machine, src: FrameNo, t: FrameNo, n: nat)
    requires t !in r.used && TableCopied(r.(used := r.used + {t}), r2, src, t, 0, n)
    ensures r2.used - LeafFrames(r2, t, ENTRIES) - {t} == r.used - StaleIn(r, t, n)
  {
    forall f ensures f in r2.used - LeafFrames(r2, t, ENTRIES) - {t} <==> f in r.used - StaleIn(r, t, n) {
      LeafFramesMember(r2, t, ENTRIES, f);
      StaleInMember(r, t, n, f);
      if f in r.used {
        forall k | 0 <= k < n && r2.mem[t][k].flags.present ensures r2.mem[t][k].frame != f {
          assert CopiedEntry(r.(used := r.used + {t}), r2, src, t, k);
        }
      }
    }
  }

  /** One private slot of the directory loop, in which frames ran out: what the rollback leaves. */
  lemma {:induction false} SlotRollsBack(m: Machine, r: Machine, pd: FrameNo, dst: FrameNo, i: nat,
                                         own: map<nat, Role>, own1: map<nat, Role>)
    requires SourceSpace(m, pd) && Progress(m, r, pd, dst, i) && Labels(m, r, own, own1, dst) && own.Keys <= m.used
    requires Untouched(m, r) && i < ENTRIES && Private(r, pd, i) && Alloc(r).1 != 0
    ensures var (r1, t) := Alloc(r);
      var (r2, n) := CloneTable(r1, r1.mem[pd][i].frame, t, 0);
      && r2.mem[pd] == m.mem[pd] && Untouched(m, r2) && n <= ENTRIES
      && RolledBack(m, RollBack(r2, dst, t), StaleIn(m, t, n))
  {
    TableAttempt(m, r, pd, dst, i, own, own1);
    AllocFresh(r);
    var (r1, t) := Alloc(r);
    var (r2, n) := CloneTable(r1, r1.mem[pd][i].frame, t, 0);
    RollBackReleases(m, r, r2, pd, dst, i, t, n, r1.mem[pd][i].frame, own, own1);
    CloneTableUntouched(m, r1, r1.mem[pd][i].frame, t, 0);
    StaleInSame(m, r, t, n);
  }

  lemma SlotFills(m: Machine, r: Machine, pd: FrameNo, dst: FrameNo, i: nat, own: map<nat, Role>, own1: map<nat, Role>)
    returns (own2: map<nat, Role>)
    requires SourceSpace(m, pd) && Progress(m, r, pd, dst, i) && Labels(m, r, own, own1, dst) && own.Keys <= m.used
    requires Untouched(m, r) && i < ENTRIES && Private(r, pd, i) && Alloc(r).1 != 0
    requires CloneTable(Alloc(r).0, Alloc(r).0.mem[pd][i].frame, Alloc(r).1, 0).1 == ENTRIES
    ensures var (r1, t) := Alloc(r);
      var r2 := CloneTable(r1, r1.mem[pd][i].frame, t, 0).0;
      var r3 := Write(r2, dst, i, Word(t, r2.mem[pd][i].flags));
      Progress(m, r3, pd, dst, i + 1) && Labels(m, r3, own, own2, dst) && Untouched(m, r3)
  {
    own2 := FillProgress(m, r, pd, dst, i, own, own1);
    SlotRollsBack(m, r, pd, dst, i, own, own1);
  }

  /** The frames used before, less the stale ones, with their contents. */
  ghost predicate RolledBack(m: Machine, q: Machine, stale: set<nat>)
  {
    && q.used == m.used - stale && q.kernel == m.kernel && q.total == m.total
    && forall f: FrameNo :: f in m.used ==> q.mem[f] == m.mem[f]
  }

  /** Without a frame for the table, the loop gives everything back. */
  lemma NoTableRollsBack(m: Machine, r: Machine, pd: FrameNo, dst: FrameNo, i: nat, own: map<nat, Role>,
                         own1: map<nat, Role>)
    requires SourceSpace(m, pd) && Progress(m, r, pd, dst, i) && Labels(m, r, own, own1, dst) && own.Keys <= m.used
    ensures RolledBack(m, Destroy(r, dst), {})
  {
    DestroyUndoesProgress(m, r, pd, dst, i, own, own1);
  }

  /** The directory loop: a full clone, or a rollback that costs only the stale frames. */
  lemma {:induction false} CloneDirResult(m: Machine, r: Machine, pd: FrameNo, dst: FrameNo, i: nat,
                                          own: map<nat, Role>, own1: map<nat, Role>)
    returns (own': map<nat, Role>)
    requires SourceSpace(m, pd) && Progress(m, r, pd, dst, i) && Labels(m, r, own, own1, dst) && own.Keys <= m.used
    requires Untouched(m, r)
    ensures CloneDir(r, pd, dst, i).1 <==> HaltOf(r, pd, dst, i).Complete?
    ensures if CloneDir(r, pd, dst, i).1
      then Progress(m, CloneDir(r, pd, dst, i).0, pd, dst, ENTRIES)
        && Labels(m, CloneDir(r, pd, dst, i).0, own, own', dst)
      else RolledBack(m, CloneDir(r, pd, dst, i).0, StaleAt(m, HaltOf(r, pd, dst, i)))
    decreases ENTRIES - i
  {
    own' := own1;
    if i == ENTRIES {
    } else if !Private(r, pd, i) {
      SkipProgress(m, r, pd, dst, i);
      own' := CloneDirResult(m, r, pd, dst, i + 1, own, own1);
    } else if Alloc(r).1 == 0 {
      AllocFresh(r);
      NoTableRollsBack(m, r, pd, dst, i, own, own1);
    } else {
      var (r1, t) := Alloc(r);
      var (r2, n) := CloneTable(r1, r1.mem[pd][i].frame, t, 0);
      if n == ENTRIES {
        var own2 := SlotFills(m, r, pd, dst, i, own, own1);
        own' := CloneDirResult(m, Write(r2, dst, i, Word(t, r2.mem[pd][i].flags)), pd, dst, i + 1, own, own2);
      } else {
        SlotRollsBack(m, r, pd, dst, i, own, own1);
      }
    }
  }
}
