/**
 The physical page allocator: a bitmap with a cached count of free pages. The bitmap refines a
 set of used page numbers; every operation is specified on that set.
 */
module Pmm {
  import opened Sizes
  import opened WordBits
  import opened PageBits
  import opened BootMap

  // ---------------------------------------------------------------- the set of used pages

  ghost function FreeSet(used: set<nat>, total: nat): set<nat>
  {
    set p | 0 <= p < total && p !in used
  }

  /** The lowest free page at or above i, or total when there is none. */
  function LowestFrom(used: set<nat>, total: nat, i: nat): (p: nat)
    requires i <= total
    ensures i <= p <= total && (p < total ==> p !in used)
    ensures forall q :: i <= q < p ==> q in used
    decreases total - i
  {
    if i == total || i !in used then i else LowestFrom(used, total, i + 1)
  }

  function LowestFree(used: set<nat>, total: nat): (p: nat)
    ensures p <= total && (p < total ==> p !in used)
    ensures forall q :: 0 <= q < p ==> q in used
  {
    LowestFrom(used, total, 0)
  }

  predicate IsRun(used: set<nat>, total: nat, i: nat, count: nat)
  {
    i + count <= total && forall q :: i <= q < i + count ==> q !in used
  }

  ghost function Run(i: nat, count: nat): (r: set<nat>)
    ensures forall q :: q in r <==> i <= q < i + count
  {
    if count == 0 then {} else Run(i, count - 1) + {i + count - 1}
  }

  lemma {:induction false} RunSize(i: nat, count: nat)
    ensures |Run(i, count)| == count
  {
    if count > 0 {
      RunSize(i, count - 1);
      OneMore(Run(i, count - 1), i + count - 1);
    }
  }

  lemma OneMore(s: set<nat>, x: nat)
    requires x !in s
    ensures |s + {x}| == |s| + 1
  {
  }

  lemma SubsetSize(a: set<nat>, b: set<nat>)
    requires a <= b
    ensures |a| <= |b|
  {
    assert b == a + (b - a);
  }

  /** The cached count cannot turn away a request that some run could serve. */
  lemma RunNeedsFreePages(used: set<nat>, total: nat, i: nat, count: nat)
    requires IsRun(used, total, i, count)
    ensures |FreeSet(used, total)| >= count
  {
    RunSize(i, count);
    SubsetSize(Run(i, count), FreeSet(used, total));
  }

  lemma FreeSetBounded(used: set<nat>, total: nat)
    ensures |FreeSet(used, total)| <= total
  {
    RunSize(0, total);
    SubsetSize(FreeSet(used, total), Run(0, total));
  }

  /** Address 0 is also the failure value: a successful allocation returns it exactly when page 0 is free. */
  lemma NullIsAmbiguousIff(used: set<nat>, total: nat)
    requires LowestFree(used, total) < total
    ensures LowestFree(used, total) * PAGE_SIZE == 0 <==> 0 !in used
  {
    var p := LowestFree(used, total);
    if p > 0 { assert 0 in used; }
  }

  // ---------------------------------------------------------------- the allocator

  class PageAllocator {
    const bitmap: array<bv32>
    var freeCount: nat
    var totalPages: nat
    ghost var used: set<nat>

    ghost predicate Valid()
      reads this, bitmap
    {
      && Tied(bitmap[..], used)
      && totalPages <= MAX_PAGES
      && (forall p :: p in used ==> p < totalPages)
      && freeCount == |FreeSet(used, totalPages)|
    }

    /** pmm_init, for a kernel image occupying [kernelStart, kernelEnd). */
    constructor (info: BootInfo, kernelStart: nat, kernelEnd: nat)
      requires 0 < kernelEnd && kernelEnd + PAGE_SIZE <= WORD && PageUp(kernelEnd) <= TotalPages(info)
      ensures Valid() && totalPages == TotalPages(info) && fresh(bitmap)
      ensures forall p: nat :: p in used <==> UsedAtBoot(info, kernelStart, kernelEnd, p)
      ensures forall p: nat :: p in used <==>
        && p < totalPages
        && (p == 0 || InKernel(kernelStart, kernelEnd, p) || Reserved(info, p) || Strayed(info, p))
    {
      var totalMem := ScanTotal(info);
      var total := totalMem / PAGE_SIZE;
      if total > MAX_PAGES { total := MAX_PAGES; }
      bitmap := new bv32[BITMAP_WORDS](_ => 0);
      totalPages := total;
      freeCount := total;
      used := {};
      new;
      TiedZero(bitmap[..]);
      RunSize(0, totalPages);
      assert FreeSet({}, totalPages) == Run(0, totalPages);
      MarkBoot(info, totalMem, kernelStart, kernelEnd);
      BootPages(info, kernelStart, kernelEnd);
    }

    /** Page 0, the kernel's pages and those of the memory map. */
    method MarkBoot(info: BootInfo, totalMem: nat, kernelStart: nat, kernelEnd: nat)
      requires Valid() && used == {} && totalMem == TotalMem(info) && totalPages == TotalPages(info)
      requires 0 < PageUp(kernelEnd) <= totalPages
      modifies this`freeCount, this`used, bitmap
      ensures Valid()
      ensures forall p: nat :: p in used <==> UsedAtBoot(info, kernelStart, kernelEnd, p)
    {
      Take(0);
      MarkRange(kernelStart / PAGE_SIZE, PageUp(kernelEnd));
      if info.hasMap {
        MarkEntries(info, totalMem);
      }
    }

    /** The largest entry end, or the size derived from mem_upper when there is none. */
    static method ScanTotal(info: BootInfo) returns (totalMem: nat)
      ensures totalMem == TotalMem(info)
    {
      totalMem := 0;
      if info.hasMap {
        var n := 0;
        while n < |info.entries|
          invariant n <= |info.entries| && totalMem == MaxEnd(info.entries[..n])
        {
          assert info.entries[..n + 1][..n] == info.entries[..n];
          var end := EndOf(info.entries[n]);
          if end > totalMem { totalMem := end; }
          n := n + 1;
        }
        assert info.entries[..n] == info.entries;
      }
      if totalMem == 0 && info.hasMem {
        totalMem := ((info.memUpper + 1024) * 1024) % WORD;
      }
    }

    /** The second walk of the map: mark the pages of every entry that is not available memory. */
    method MarkEntries(info: BootInfo, totalMem: nat)
      requires Valid() && info.hasMap && totalMem == TotalMem(info) && totalPages == TotalPages(info)
      modifies this`freeCount, this`used, bitmap
      ensures Valid()
      ensures forall p: nat :: p in used <==> p in old(used) || Marked(info, p)
    {
      var n := 0;
      while n < |info.entries|
        invariant n <= |info.entries| && Valid()
        invariant forall p: nat :: p in used <==> p in old(used) || MarkedBy(info, n, p)
      {
        var (lo, hi) := EntryPages(info.entries[n], totalMem, totalPages);
        assert forall p: nat :: MarkedBy(info, n + 1, p) <==> MarkedBy(info, n, p) || Marks(info, info.entries[n], p);
        MarkRange(lo, hi);
        n := n + 1;
      }
    }

    /** Mark pages lo..hi used, counting out only those that were free. */
    method MarkRange(lo: nat, hi: nat)
      requires Valid() && hi <= totalPages
      modifies this`freeCount, this`used, bitmap
      ensures Valid() && forall p :: p in used <==> p in old(used) || lo <= p < hi
    {
      var i := lo;
      while i < hi
        invariant lo <= i && (lo <= hi ==> i <= hi) && Valid()
        invariant forall p :: p in used <==> p in old(used) || (lo <= p < i && lo < hi)
      {
        var taken := IsUsed(i);
        if !taken { Take(i); }
        i := i + 1;
      }
    }

    method IsUsed(p: nat) returns (b: bool)
      requires Tied(bitmap[..], used) && p < MAX_PAGES
      ensures b <==> p in used
    {
      b := TestBit(bitmap[p / 32], BitOf(p));
      assert b == BitAt(bitmap[..], p);
    }

    method MarkUsed(p: nat)
      requires Tied(bitmap[..], used) && p < MAX_PAGES
      modifies bitmap, this`used
      ensures Tied(bitmap[..], used) && used == old(used) + {p}
    {
      TiedSet(bitmap[..], used, p);
      bitmap[p / 32] := SetBit(bitmap[p / 32], BitOf(p));
      used := used + {p};
      assert bitmap[..] == old(bitmap[..])[p / 32 := bitmap[p / 32]];
    }

    method MarkFree(p: nat)
      requires Tied(bitmap[..], used) && p < MAX_PAGES
      modifies bitmap, this`used
      ensures Tied(bitmap[..], used) && used == old(used) - {p}
    {
      TiedClear(bitmap[..], used, p);
      bitmap[p / 32] := ClearBit(bitmap[p / 32], BitOf(p));
      used := used - {p};
      assert bitmap[..] == old(bitmap[..])[p / 32 := bitmap[p / 32]];
    }

    /** Mark a free page below totalPages used and count it out. */
    method Take(p: nat)
      requires Valid() && p < totalPages && p !in used
      modifies this`freeCount, this`used, bitmap
      ensures Valid() && used == old(used) + {p}
    {
      assert p in FreeSet(used, totalPages);
      assert FreeSet(used + {p}, totalPages) == FreeSet(used, totalPages) - {p};
      MarkUsed(p);
      freeCount := freeCount - 1;
    }

    /** pmm_alloc_page: the lowest free page, or null when there is none. */
    method AllocPage() returns (addr: nat)
      requires Valid()
      modifies this`freeCount, this`used, bitmap
      ensures Valid()
      ensures var p := LowestFree(old(used), totalPages);
        if p < totalPages then addr == p * PAGE_SIZE && used == old(used) + {p}
        else addr == 0 && used == old(used) && freeCount == 0
    {
      if freeCount == 0 {
        assert LowestFree(used, totalPages) !in FreeSet(used, totalPages);
        return 0;
      }
      var i := 0;
      while i < totalPages
        invariant i <= totalPages && LowestFree(used, totalPages) == LowestFrom(used, totalPages, i)
        invariant Valid() && used == old(used)
      {
        var taken := IsUsed(i);
        if !taken {
          Take(i);
          return i * PAGE_SIZE;
        }
        i := i + 1;
      }
      assert FreeSet(used, totalPages) == {};
      return 0;
    }

    /** pmm_free_page. */
    method FreePage(addr: nat)
      requires Valid()
      modifies this`freeCount, this`used, bitmap
      ensures Valid()
      ensures used == old(used) - {addr / PAGE_SIZE}
    {
      var page := addr / PAGE_SIZE;
      if page < totalPages {
        var taken := IsUsed(page);
        if taken {
          assert FreeSet(used - {page}, totalPages) == FreeSet(used, totalPages) + {page};
          MarkFree(page);
          freeCount := freeCount + 1;
        }
      }
    }

    /** Whether count pages from i on are all free. */
    method RunIsFree(i: nat, count: nat) returns (free: bool)
      requires Valid() && i + count <= totalPages
      ensures free <==> IsRun(used, totalPages, i, count)
    {
      var j := 0;
      while j < count
        invariant j <= count && IsRun(used, totalPages, i, j)
      {
        var taken := IsUsed(i + j);
        if taken { return false; }
        j := j + 1;
      }
      return true;
    }

    /** Take count free pages from i on. */
    method TakeRun(i: nat, count: nat)
      requires Valid() && IsRun(used, totalPages, i, count)
      modifies this`freeCount, this`used, bitmap
      ensures Valid() && used == old(used) + Run(i, count)
    {
      var j := 0;
      while j < count
        invariant j <= count && Valid() && used == old(used) + Run(i, j)
      {
        Take(i + j);
        assert Run(i, j + 1) == Run(i, j) + {i + j};
        j := j + 1;
      }
    }

    /** pmm_alloc_pages: the lowest run of count free pages; fails exactly when there is none. */
    method AllocPages(count: nat) returns (addr: nat, ghost ok: bool)
      requires Valid()
      modifies this`freeCount, this`used, bitmap
      ensures Valid()
      ensures ok <==> count > 0 && exists i :: IsRun(old(used), totalPages, i, count)
      ensures !ok ==> addr == 0 && used == old(used)
      ensures ok ==>
        && addr % PAGE_SIZE == 0 && var i := addr / PAGE_SIZE;
        && IsRun(old(used), totalPages, i, count)
        && (forall h :: 0 <= h < i ==> !IsRun(old(used), totalPages, h, count))
        && used == old(used) + Run(i, count)
    {
      if count == 0 || freeCount < count {
        forall i | IsRun(used, totalPages, i, count) ensures freeCount >= count {
          RunNeedsFreePages(used, totalPages, i, count);
        }
        return 0, false;
      }
      FreeSetBounded(used, totalPages);
      var i := 0;
      while i <= totalPages - count
        invariant i <= totalPages - count + 1 && Valid() && used == old(used)
        invariant forall h :: 0 <= h < i ==> !IsRun(used, totalPages, h, count)
      {
        var free := RunIsFree(i, count);
        if free {
          TakeRun(i, count);
          return i * PAGE_SIZE, true;
        }
        i := i + 1;
      }
      return 0, false;
    }

    /** pmm_free_pages; the page number wraps at 32 bits. */
    method FreePages(addr: nat, count: nat)
      requires Valid() && addr < WORD && count < WORD
      modifies this`freeCount, this`used, bitmap
      ensures Valid()
      ensures forall p :: p in used <==> p in old(used) && !InWrappedRun(p, addr / PAGE_SIZE, count)
    {
      var start := addr / PAGE_SIZE;
      var i := 0;
      while i < count
        invariant i <= count && Valid()
        invariant forall p :: p in used <==> p in old(used) && !InWrappedRun(p, start, i)
      {
        var page := (start + i) % WORD;
        FreePage(page * PAGE_SIZE);
        i := i + 1;
      }
    }
  }

  /** Page p is one of count page numbers from start on, counted modulo 2^32. */
  predicate InWrappedRun(p: nat, start: nat, count: nat)
  {
    start <= p < start + count || p + WORD < start + count
  }

  /** A run inside memory does not wrap, so freeing it frees exactly that run. */
  lemma {:induction false} AllocatedRunDoesNotWrap(used: set<nat>, total: nat, i: nat, count: nat, p: nat)
    requires IsRun(used, total, i, count) && total <= MAX_PAGES
    ensures InWrappedRun(p, i, count) <==> p in Run(i, count)
  {
  }

  /** Allocating a run and freeing it again restores every word of the bitmap and the count. */
  method AllocThenFree(a: PageAllocator, count: nat) returns (ok: bool)
    requires a.Valid() && 0 in a.used
    modifies a`freeCount, a`used, a.bitmap
    ensures a.Valid() && (ok <==> count > 0 && exists i :: IsRun(old(a.used), a.totalPages, i, count))
    ensures a.bitmap[..] == old(a.bitmap[..]) && a.freeCount == old(a.freeCount) && a.used == old(a.used)
  {
    ghost var words, before := a.bitmap[..], a.used;
    var addr, _ := a.AllocPages(count);
    ok := addr != 0;
    if ok {
      assert IsRun(before, a.totalPages, addr / PAGE_SIZE, count);
      a.FreePages(addr, count);
      forall p: nat ensures InWrappedRun(p, addr / PAGE_SIZE, count) <==> p in Run(addr / PAGE_SIZE, count) {
        AllocatedRunDoesNotWrap(before, a.totalPages, addr / PAGE_SIZE, count, p);
      }
      assert a.used == before;
    }
    TiedDetermines(words, a.bitmap[..], before);
  }

  /** A page that only overlaps a reserved range, its base lying below it, is free after pmm_init. */
  method PartlyReservedPageExample() returns (a: PageAllocator)
    ensures fresh(a) && a.Valid() && Overlaps(MapEntry(0x9_FC00, 0x400, 2), 0x9F) && 0x9F !in a.used
    ensures 0x9F < a.totalPages
  {
    var e := MapEntry(0x9_FC00, 0x400, 2);
    var info := BootInfo(true, [MapEntry(0, 0x80_0000, 1), e], false, 0);
    assert info.entries[..1] == [MapEntry(0, 0x80_0000, 1)] && info.entries[..1][..0] == [];
    assert MaxEnd(info.entries[..1]) == 0x80_0000;
    assert TotalMem(info) == 0x80_0000;
    a := new PageAllocator(info, 0x10_0000, 0x18_0000);
  }

  /** A reserved range that ends at 4 GiB is lost: its pages are free after pmm_init. */
  method WrappedEntryExample() returns (a: PageAllocator)
    ensures fresh(a) && a.Valid() && HoldsBase(MapEntry(0x40_0000, 0xFFC0_0000, 2), 0x500) && 0x500 !in a.used
    ensures 0x500 < a.totalPages
  {
    var e := MapEntry(0x40_0000, 0xFFC0_0000, 2);
    var info := BootInfo(true, [MapEntry(0, 0x80_0000, 1), e], false, 0);
    assert info.entries[..1] == [MapEntry(0, 0x80_0000, 1)] && info.entries[..1][..0] == [];
    assert MaxEnd(info.entries[..1]) == 0x80_0000;
    assert TotalMem(info) == 0x80_0000;
    a := new PageAllocator(info, 0x10_0000, 0x18_0000);
  }

  /** So is one that ends short of 4 GiB, but inside the last page. */
  method LastPageEntryExample() returns (a: PageAllocator)
    ensures var e := MapEntry(0x1000_0000, 0xEFFF_F800, 2);
      fresh(a) && a.Valid() && !Wraps(e) && HoldsBase(e, 0x1_0500) && 0x1_0500 < a.totalPages && 0x1_0500 !in a.used
  {
    var e := MapEntry(0x1000_0000, 0xEFFF_F800, 2);
    var info := BootInfo(true, [e], false, 0);
    assert info.entries[..0] == [] && MaxEnd(info.entries) == 0xFFFF_F800;
    a := new PageAllocator(info, 0x10_0000, 0x18_0000);
  }

  /** A reserved range that starts in that page and wraps has pages at the other end of memory marked. */
  method StrayEntryExample() returns (a: PageAllocator)
    ensures var e := MapEntry(0xFFFF_F800, 0x5800, 2);
      fresh(a) && a.Valid() && !HoldsBase(e, 3) && 3 < a.totalPages && 3 in a.used
  {
    var e := MapEntry(0xFFFF_F800, 0x5800, 2);
    var info := BootInfo(true, [MapEntry(0, 0xFFFF_FC00, 1), e], false, 0);
    assert info.entries[..1] == [MapEntry(0, 0xFFFF_FC00, 1)] && info.entries[..1][..0] == [];
    assert MaxEnd(info.entries[..1]) == 0xFFFF_FC00;
    assert TotalMem(info) == 0xFFFF_FC00;
    assert e == info.entries[1];
    assert Stray(info, e);
    a := new PageAllocator(info, 0x10_0000, 0x18_0000);
  }
}
