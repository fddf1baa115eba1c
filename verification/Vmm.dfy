/**
 The virtual memory manager as it runs: directories and tables are rewritten word by word in
 physical memory, with frames from the page allocator. Each method is proved to do what the
 operation of the same name in VmmModel says.
 */
module Vmm {
  import opened Sizes
  import opened Pmm
  import opened VmmModel
  import opened VmmInvariant
  import opened VmmSteps
  import opened VmmClone
  import opened VmmCount
  import opened VmmRuns
  import opened PageBits

  /** The frames a table names depend on memory only. */
  lemma {:induction false} LeafFramesOfMem(m: Machine, r: Machine, t: FrameNo, n: nat)
    requires n <= ENTRIES && m.mem == r.mem
    ensures LeafFrames(m, t, n) == LeafFrames(r, t, n)
  {
    if n > 0 { LeafFramesOfMem(m, r, t, n - 1); }
  }

  /** Present, writable, user. */
  const RWU: Flags := Flags(true, true, true, 0)

  function IdentityTable(stale: Frame, base: nat, total: Total): Frame
    requires base < total
  {
    seq(1024, k requires 0 <= k < 1024 => if base + k < total then Word(base + k, RWU) else stale[k])
  }

  /** The kernel's directory maps each existing page below n to the frame of the same number. */
  ghost predicate IdentityBelow(m: Machine, n: nat)
  {
    forall p: FrameNo :: p < n && p < m.total ==>
      Leaf(m, m.kernel, Slot(p), Index(p)) == Word(p, Flags(true, true, true, 0))
  }

  /** One more kernel slot pointed at an identity table keeps the invariant and extends the identity map. */
  lemma IdentitySlot(m: Machine, own: map<nat, Role>, n: nat) returns (own': map<nat, Role>)
    requires TablesInv(System(m, {}), own) && n < ENTRIES && n * 1024 < m.total && Alloc(m).1 != 0
    requires IdentityBelow(m, n * 1024)
    ensures var (m1, t) := Alloc(m);
      var m2 := WriteFrame(m1, t, IdentityTable(m1.mem[t], n * 1024, m.total));
      var r := Write(m2, m.kernel, n, Word(t, RWU));
      && TablesInv(System(r, {}), own') && IdentityBelow(r, (n + 1) * 1024)
      && r.mem[m.kernel] == m.mem[m.kernel][n := Word(t, RWU)]
  {
    var s := System(m, {});
    var (m1, t) := Alloc(m);
    AllocFresh(m);
    var page := IdentityTable(m1.mem[t], n * 1024, m.total);
    own' := NewFrame(s, own, page, KernelTable(n));
    var s2 := s.(m := WriteFrame(m1, t, page));
    assert m.kernel in own && s2.m.mem[m.kernel] == m.mem[m.kernel];
    SetSlot(s2, own', m.kernel, n, Word(t, RWU));
    var r := Write(s2.m, m.kernel, n, Word(t, RWU));
    forall p: FrameNo | p < (n + 1) * 1024 && p < m.total ensures Leaf(r, m.kernel, Slot(p), Index(p)) == Word(p, RWU) {
      if Slot(p) == n { assert p == n * 1024 + Index(p); }
    }
  }

  /** The shifts of the code take a virtual address apart as slot and index of its page. */
  lemma AddressSplit(virt: nat)
    requires virt < WORD
    ensures virt / 0x40_0000 == Slot(virt / 4096) && virt / 0x1000 % 1024 == Index(virt / 4096)
  {
  }

  class AddressSpaces {
    const pmm: PageAllocator
    var mem: Memory
    var kernelDir: FrameNo
    var currentDir: FrameNo

    constructor (physical: Memory, frames: PageAllocator)
      requires frames.Valid() && frames.totalPages <= 0x10_0000
      ensures Valid() && pmm == frames && mem == physical && kernelDir == 0 && currentDir == 0
    {
      pmm, mem, kernelDir, currentDir := frames, physical, 0, 0;
    }

    ghost predicate Valid()
      reads this, pmm, pmm.bitmap
    {
      pmm.Valid() && pmm.totalPages <= 0x10_0000
    }

    ghost function Now(): Machine
      requires Valid()
      reads this, pmm, pmm.bitmap
    {
      Machine(mem, pmm.used, pmm.totalPages, kernelDir)
    }

    /** pmm_alloc_page, as a frame number. */
    method AllocFrame() returns (f: FrameNo)
      requires Valid()
      modifies pmm`freeCount, pmm`used, pmm.bitmap
      ensures Valid() && (Now(), f) == Alloc(old(Now()))
    {
      var addr := pmm.AllocPage();
      f := addr / 4096;
    }

    /** pmm_free_page, as a frame number. */
    method FreeFrame(f: FrameNo)
      requires Valid()
      modifies pmm`freeCount, pmm`used, pmm.bitmap
      ensures Valid() && Now() == Release(old(Now()), f)
    {
      pmm.FreePage(f * 4096);
    }

    /** Copy the 1024 words of frame src into frame dst. */
    method CopyFrame(dst: FrameNo, src: FrameNo)
      modifies this`mem
      ensures mem == old(mem)[dst := old(mem)[src]]
    {
      var j := 0;
      while j < ENTRIES
        invariant j <= ENTRIES
        invariant forall f: FrameNo :: f != dst ==> mem[f] == old(mem)[f]
        invariant forall k :: 0 <= k < j ==> mem[dst][k] == old(mem)[src][k]
        invariant forall k :: j <= k < ENTRIES ==> mem[dst][k] == old(mem)[dst][k]
      {
        mem := mem[dst := mem[dst][j := mem[src][j]]];
        j := j + 1;
      }
      assert mem[dst] == old(mem)[src];
    }

    /** Clear the 1024 words of frame f. */
    method ClearFrame(f: FrameNo)
      modifies this`mem
      ensures mem == old(mem)[f := ZeroFrame()]
    {
      var j := 0;
      while j < ENTRIES
        invariant j <= ENTRIES
        invariant forall g: FrameNo :: g != f ==> mem[g] == old(mem)[g]
        invariant forall k :: 0 <= k < j ==> mem[f][k] == ZERO
      {
        mem := mem[f := mem[f][j := ZERO]];
        j := j + 1;
      }
      assert mem[f] == ZeroFrame();
    }

    method SetWord(f: FrameNo, k: nat, w: Word)
      requires k < ENTRIES
      modifies this`mem
      ensures mem == old(mem)[f := old(mem)[f][k := w]]
    {
      mem := mem[f := mem[f][k := w]];
    }

    /** A shared slot gets its own copy of the kernel's table; false when no frame is left. */
    method OwnCopy(pd: FrameNo, i: nat, user: bool) returns (ok: bool)
      requires Valid() && i < ENTRIES
      modifies this`mem, pmm`freeCount, pmm`used, pmm.bitmap
      ensures Valid() && (Now(), ok) == Privatise(old(Now()), pd, i, user)
    {
      if pd != kernelDir && mem[pd][i].flags.present && mem[pd][i] == mem[kernelDir][i] {
        var t := AllocFrame();
        if t == 0 { return false; }
        CopyFrame(t, mem[pd][i].frame);
        SetWord(pd, i, WithUser(Word(t, mem[pd][i].flags), user));
      }
      ok := true;
    }

    /** An absent slot gets an empty table; false when no frame is left. */
    method EnsureTable(pd: FrameNo, i: nat, user: bool) returns (ok: bool)
      requires Valid() && i < ENTRIES
      modifies this`mem, pmm`freeCount, pmm`used, pmm.bitmap
      ensures Valid() && (Now(), ok) == AddTable(old(Now()), pd, i, user)
    {
      if !mem[pd][i].flags.present {
        var t := AllocFrame();
        if t == 0 { return false; }
        ClearFrame(t);
        SetWord(pd, i, Word(t, Flags(true, true, user, 0)));
      }
      ok := true;
    }

    /** vmm_map_page_in. */
    method MapPageIn(pd: FrameNo, virt: nat, phys: nat, flags: Flags)
      requires Valid() && virt < WORD && phys < WORD
      modifies this`mem, pmm`freeCount, pmm`used, pmm.bitmap
      ensures Valid() && Now() == MapIn(old(Now()), pd, virt / 4096, phys / 4096, flags).0
    {
      AddressSplit(virt);
      var i, j := virt / 0x40_0000, virt / 0x1000 % 1024;
      var ok := OwnCopy(pd, i, flags.user);
      if !ok { return; }
      ok := EnsureTable(pd, i, flags.user);
      if !ok { return; }
      SetWord(pd, i, WithUser(mem[pd][i], flags.user));
      SetWord(mem[pd][i].frame, j, Word(phys / 4096, flags.(present := true)));
    }

    /** vmm_map_page: the same, in the current directory. */
    method MapPage(virt: nat, phys: nat, flags: Flags)
      requires Valid() && virt < WORD && phys < WORD
      modifies this`mem, pmm`freeCount, pmm`used, pmm.bitmap
      ensures Valid() && Now() == MapIn(old(Now()), currentDir, virt / 4096, phys / 4096, flags).0
    {
      MapPageIn(currentDir, virt, phys, flags);
    }

    /** vmm_alloc_page_in. */
    method AllocPageIn(pd: FrameNo, virt: nat, flags: Flags) returns (f: FrameNo)
      requires Valid() && virt < WORD
      modifies this`mem, pmm`freeCount, pmm`used, pmm.bitmap
      ensures Valid() && (Now(), f) == AllocIn(old(Now()), pd, virt / 4096, flags)
    {
      f := AllocFrame();
      if f == 0 { return; }
      MapPageIn(pd, virt, f * 4096, flags);
    }

    /** vmm_alloc_page: the same, in the current directory. */
    method AllocPage(virt: nat, flags: Flags) returns (f: FrameNo)
      requires Valid() && virt < WORD
      modifies this`mem, pmm`freeCount, pmm`used, pmm.bitmap
      ensures Valid() && (Now(), f) == AllocIn(old(Now()), currentDir, virt / 4096, flags)
    {
      f := AllocPageIn(currentDir, virt, flags);
    }

    /** vmm_get_phys. */
    method GetPhysical(virt: nat) returns (addr: nat)
      requires Valid() && virt < WORD
      ensures addr == GetPhys(Now(), currentDir, virt / 4096, virt % 4096)
    {
      AddressSplit(virt);
      var i, j := virt / 0x40_0000, virt / 0x1000 % 1024;
      if !mem[currentDir][i].flags.present { return 0; }
      var e := mem[mem[currentDir][i].frame][j];
      if !e.flags.present { return 0; }
      return e.frame * 4096 + virt % 4096;
    }

    /** vmm_create_address_space. */
    method CreateSpace() returns (pd: FrameNo)
      requires Valid()
      modifies this`mem, pmm`freeCount, pmm`used, pmm.bitmap
      ensures Valid() && (Now(), pd) == Create(old(Now()))
    {
      pd := AllocFrame();
      if pd == 0 { return; }
      ghost var m := Now();
      var i := 0;
      while i < ENTRIES
        invariant i <= ENTRIES && Valid() && Now() == m.(mem := mem)
        invariant forall f: FrameNo :: f != pd ==> mem[f] == m.mem[f]
        invariant pd == kernelDir ==> forall k :: i <= k < ENTRIES ==> mem[pd][k] == m.mem[pd][k]
        invariant forall k :: 0 <= k < i ==> mem[pd][k] == KernelSlots(m)[k]
      {
        if mem[kernelDir][i].flags.present {
          SetWord(pd, i, mem[kernelDir][i]);
        } else {
          SetWord(pd, i, ZERO);
        }
        i := i + 1;
      }
      assert mem[pd] == KernelSlots(m);
      assert mem == m.mem[pd := KernelSlots(m)];
    }

    /** Release the frame of entry j of table t, if present; those before it were released since m. */
    method FreeLeaf(t: FrameNo, j: nat, ghost m: Machine)
      requires Valid() && j < ENTRIES && Now() == m.(used := m.used - LeafFrames(m, t, j))
      modifies pmm`freeCount, pmm`used, pmm.bitmap
      ensures Valid() && Now() == m.(used := m.used - LeafFrames(m, t, j + 1))
    {
      if mem[t][j].flags.present {
        FreeFrame(mem[t][j].frame);
      }
    }

    /** Release every present entry's frame of table t. */
    method FreeLeaves(t: FrameNo)
      requires Valid()
      modifies pmm`freeCount, pmm`used, pmm.bitmap
      ensures Valid() && Now() == old(Now()).(used := old(pmm.used) - LeafFrames(old(Now()), t, ENTRIES))
    {
      ghost var m := Now();
      var j := 0;
      while j < ENTRIES
        invariant j <= ENTRIES && Valid()
        invariant Now() == m.(used := m.used - LeafFrames(m, t, j))
      {
        FreeLeaf(t, j, m);
        j := j + 1;
      }
    }

    /** vmm_destroy_address_space. */
    method DestroySpace(pd: FrameNo)
      requires Valid()
      modifies pmm`freeCount, pmm`used, pmm.bitmap
      ensures Valid() && Now() == Destroy(old(Now()), pd)
    {
      if pd == 0 || pd == kernelDir { return; }
      ghost var m := Now();
      var i := 0;
      while i < ENTRIES
        invariant i <= ENTRIES && Valid()
        invariant Now() == m.(used := m.used - TableFrames(m, pd, i))
      {
        if mem[pd][i].flags.present && !(mem[kernelDir][i].flags.present && mem[pd][i] == mem[kernelDir][i]) {
          var t := mem[pd][i].frame;
          ghost var before := Now();
          FreeLeaves(t);
          LeafFramesOfMem(m, before, t, ENTRIES);
          FreeFrame(t);
        }
        i := i + 1;
      }
      FreeFrame(pd);
    }

    /** The inner loop of clone: copy the pages of table src into table dst, stopping when out of frames. */
    method ClonePages(src: FrameNo, dst: FrameNo) returns (n: nat)
      requires Valid()
      modifies this`mem, pmm`freeCount, pmm`used, pmm.bitmap
      ensures Valid() && (Now(), n) == CloneTable(old(Now()), src, dst, 0)
    {
      n := 0;
      while n < ENTRIES
        invariant n <= ENTRIES && Valid()
        invariant CloneTable(old(Now()), src, dst, 0) == CloneTable(Now(), src, dst, n)
      {
        if !mem[src][n].flags.present {
          SetWord(dst, n, ZERO);
        } else {
          var page := AllocFrame();
          if page == 0 { return; }
          CopyFrame(page, mem[src][n].frame);
          SetWord(dst, n, Word(page, mem[src][n].flags));
        }
        n := n + 1;
      }
    }

    /** The rollback of clone when a table could not be copied in full. */
    method UndoTable(pd: FrameNo, t: FrameNo)
      requires Valid()
      modifies pmm`freeCount, pmm`used, pmm.bitmap
      ensures Valid() && Now() == RollBack(old(Now()), pd, t)
    {
      FreeLeaves(t);
      FreeFrame(t);
      DestroySpace(pd);
    }

    /** One private slot of clone; on failure everything is rolled back. */
    method CloneSlot(pd: FrameNo, copy: FrameNo, i: nat) returns (ok: bool)
      requires Valid() && i < ENTRIES && Private(Now(), pd, i)
      modifies this`mem, pmm`freeCount, pmm`used, pmm.bitmap
      ensures Valid()
      ensures CloneDir(old(Now()), pd, copy, i) == if ok then CloneDir(Now(), pd, copy, i + 1) else (Now(), false)
    {
      var src := mem[pd][i].frame;
      var t := AllocFrame();
      if t == 0 {
        DestroySpace(copy);
        return false;
      }
      var n := ClonePages(src, t);
      if n < ENTRIES {
        UndoTable(copy, t);
        return false;
      }
      SetWord(copy, i, Word(t, mem[pd][i].flags));
      ok := true;
    }

    /** vmm_clone_address_space. */
    method CloneSpace(pd: FrameNo) returns (copy: FrameNo)
      requires Valid()
      modifies this`mem, pmm`freeCount, pmm`used, pmm.bitmap
      ensures Valid() && (Now(), copy) == Clone(old(Now()), pd)
    {
      copy := CreateSpace();
      if copy == 0 { return; }
      ghost var m := Now();
      var i := 0;
      while i < ENTRIES
        invariant i <= ENTRIES && Valid()
        invariant CloneDir(m, pd, copy, 0) == CloneDir(Now(), pd, copy, i)
      {
        if mem[pd][i].flags.present && !(mem[kernelDir][i].flags.present && mem[pd][i] == mem[kernelDir][i]) {
          var ok := CloneSlot(pd, copy, i);
          if !ok { return 0; }
        }
        i := i + 1;
      }
    }

    /** vmm_switch_address_space. */
    method SwitchTo(pd: FrameNo)
      requires Valid()
      modifies this`currentDir
      ensures Valid() && currentDir == pd && Now() == old(Now())
    {
      currentDir := pd;
    }

    /** Fill table t with the identity mapping of the frames from base on that exist. */
    method FillIdentity(t: FrameNo, base: nat)
      requires Valid() && base < pmm.totalPages
      modifies this`mem
      ensures Valid() && Now() == WriteFrame(old(Now()), t, IdentityTable(old(mem)[t], base, pmm.totalPages))
    {
      var j := 0;
      while j < ENTRIES && base + j < pmm.totalPages
        invariant j <= ENTRIES && base + j <= pmm.totalPages
        invariant forall f: FrameNo :: f != t ==> mem[f] == old(mem)[f]
        invariant forall k :: 0 <= k < j ==> mem[t][k] == Word(base + k, RWU)
        invariant forall k :: j <= k < ENTRIES ==> mem[t][k] == old(mem)[t][k]
      {
        SetWord(t, j, Word(base + j, RWU));
        j := j + 1;
      }
      assert mem[t] == IdentityTable(old(mem)[t], base, pmm.totalPages);
    }

    /**
     vmm_init: a kernel directory that maps every existing frame to itself; false where it panics.
     Slots past the last frame stay absent; the unused end of the last table keeps stale words.
     */
    method Init() returns (ok: bool, ghost own: map<nat, Role>)
      requires Valid() && 0 in pmm.used
      modifies this, pmm`freeCount, pmm`used, pmm.bitmap
      ensures Valid()
      ensures ok <==> old(pmm.freeCount) >= 1 + (pmm.totalPages + 1023) / 1024
      ensures ok ==> pmm.freeCount == old(pmm.freeCount) - 1 - (pmm.totalPages + 1023) / 1024
      ensures ok ==>
        currentDir == kernelDir && TablesInv(System(Now(), {}), own) && IdentityBelow(Now(), pmm.totalPages)
      ensures ok ==> forall i :: 0 <= i < ENTRIES ==>
        if i * 1024 >= pmm.totalPages then mem[kernelDir][i] == ZERO
        else mem[kernelDir][i].flags == Flags(true, true, true, 0)
    {
      own := map[];
      AllocCounts(Now());
      var pd := AllocFrame();
      if pd == 0 { return false, own; }
      kernelDir := pd;
      currentDir := pd;
      ClearFrame(pd);
      own := map[pd as nat := KernelDir];
      var n := 0;
      while n * 1024 < pmm.totalPages
        invariant n <= ENTRIES && (n > 0 ==> (n - 1) * 1024 < pmm.totalPages)
        invariant Valid() && currentDir == kernelDir && pmm.freeCount + n + 1 == old(pmm.freeCount)
        invariant TablesInv(System(Now(), {}), own) && IdentityBelow(Now(), n * 1024)
        invariant forall i :: n <= i < ENTRIES ==> mem[kernelDir][i] == ZERO
        invariant forall i :: 0 <= i < n && i < ENTRIES ==> mem[kernelDir][i].flags == Flags(true, true, true, 0)
      {
        ok, own := AddIdentity(n, own);
        if !ok { return; }
        n := n + 1;
      }
      ok := true;
    }

    /** One more table of the identity mapping. */
    method AddIdentity(n: nat, ghost own: map<nat, Role>) returns (ok: bool, ghost own': map<nat, Role>)
      requires Valid() && n < ENTRIES && n * 1024 < pmm.totalPages
      requires TablesInv(System(Now(), {}), own) && IdentityBelow(Now(), n * 1024)
      modifies this`mem, pmm`freeCount, pmm`used, pmm.bitmap
      ensures Valid() && (ok <==> old(pmm.freeCount) > 0) && (ok ==> pmm.freeCount == old(pmm.freeCount) - 1)
      ensures ok ==> TablesInv(System(Now(), {}), own') && IdentityBelow(Now(), (n + 1) * 1024)
      ensures ok ==> forall i :: 0 <= i < ENTRIES && i != n ==> mem[kernelDir][i] == old(mem)[kernelDir][i]
      ensures ok ==> mem[kernelDir][n].flags == Flags(true, true, true, 0)
    {
      ghost var m := Now();
      own' := own;
      AllocCounts(m);
      var t := AllocFrame();
      if t == 0 { return false, own; }
      FillIdentity(t, n * 1024);
      SetWord(kernelDir, n, Word(t, RWU));
      own' := IdentitySlot(m, own, n);
      ok := true;
    }
  }

  /**
   Cloning a space and destroying the clone restores every word of the bitmap, the count and every frame in use;
   so does a clone that fails and finds no stale words naming frames in use.
   */
  method CloneThenDestroy(vm: AddressSpaces, pd: FrameNo) returns (copied: bool)
    requires vm.Valid() && SourceSpace(vm.Now(), pd)
    modifies vm`mem, vm.pmm`freeCount, vm.pmm`used, vm.pmm.bitmap
    ensures vm.Valid() && (copied <==> old(vm.pmm.freeCount) >= CloneNeeds(old(vm.Now()), pd))
    ensures copied ==> vm.pmm.bitmap[..] == old(vm.pmm.bitmap[..]) && vm.pmm.freeCount == old(vm.pmm.freeCount)
    ensures !copied && CloneStale(old(vm.Now()), pd) !! old(vm.pmm.used) ==>
      vm.pmm.bitmap[..] == old(vm.pmm.bitmap[..]) && vm.pmm.freeCount == old(vm.pmm.freeCount)
    ensures forall f: FrameNo :: f in old(vm.pmm.used) ==> vm.mem[f] == old(vm.mem)[f]
  {
    ghost var m, words := vm.Now(), vm.pmm.bitmap[..];
    CloneSucceedsIff(m, pd);
    var copy := vm.CloneSpace(pd);
    copied := copy != 0;
    if copied {
      CloneThenDestroyRestores(m, pd);
      vm.DestroySpace(copy);
      assert vm.Now().used == m.used;
    } else {
      FailedCloneRestoresIff(m, pd);
    }
    if vm.pmm.used == m.used { TiedDetermines(words, vm.pmm.bitmap[..], m.used); }
  }
}
