/**
 The boot loader's memory map, and which pages pmm_init marks used because of it. Addresses are
 32-bit and wrap, as in the code.
 */
module BootMap {
  import opened Sizes
  import opened PageBits

  type Word32 = n: nat | n < WORD

  /** The low words of an entry's base address and length, and its type; type 1 is available memory. */
  datatype MapEntry = MapEntry(addr: Word32, len: Word32, kind: nat)

  /** What the boot loader reports; the memory map is present when flag bit 6 is set. */
  datatype BootInfo = BootInfo(hasMap: bool, entries: seq<MapEntry>, hasMem: bool, memUpper: nat)

  // ---------------------------------------------------------------- what the code computes

  function EndOf(e: MapEntry): Word32 { (e.addr + e.len) % WORD }

  function MaxEnd(entries: seq<MapEntry>): Word32
  {
    if entries == [] then 0
    else
      var m := MaxEnd(entries[..|entries| - 1]);
      var e := EndOf(entries[|entries| - 1]);
      if e > m then e else m
  }

  function TotalMem(info: BootInfo): Word32
  {
    var m := if info.hasMap then MaxEnd(info.entries) else 0;
    if m == 0 && info.hasMem then ((info.memUpper + 1024) * 1024) % WORD else m
  }

  function TotalPages(info: BootInfo): nat
  {
    var n := TotalMem(info) / PAGE_SIZE;
    if n > MAX_PAGES then MAX_PAGES else n
  }

  /** The map has an entry whose end, as the code computes it, is not 0. */
  ghost predicate SomeEnd(info: BootInfo)
  {
    info.hasMap && exists e :: e in info.entries && (e.addr + e.len) % 0x1_0000_0000 != 0
  }

  lemma {:induction false} MaxEndIsReached(entries: seq<MapEntry>)
    ensures forall e :: e in entries ==> (e.addr + e.len) % 0x1_0000_0000 <= MaxEnd(entries)
    ensures MaxEnd(entries) == 0 || exists e :: e in entries && (e.addr + e.len) % 0x1_0000_0000 == MaxEnd(entries)
  {
    if entries != [] {
      var n := |entries| - 1;
      MaxEndIsReached(entries[..n]);
      assert entries == entries[..n] + [entries[n]];
      assert forall e :: e in entries <==> e in entries[..n] || e == entries[n];
    }
  }

  /**
   Total memory is the largest entry end of the map; when there is no map or all its ends are 0, it is the size
   from mem_upper, in KiB above the first MiB; and 0 when that is not reported either.
   */
  lemma TotalMemIsLargestEnd(info: BootInfo)
    ensures SomeEnd(info) ==>
      && (forall e :: e in info.entries ==> (e.addr + e.len) % 0x1_0000_0000 <= TotalMem(info))
      && exists e :: e in info.entries && (e.addr + e.len) % 0x1_0000_0000 == TotalMem(info)
    ensures !SomeEnd(info) ==>
      TotalMem(info) == if info.hasMem then (info.memUpper + 1024) * 1024 % 0x1_0000_0000 else 0
    ensures TotalPages(info) == if TotalMem(info) / 4096 > 0x10_0000 then 0x10_0000 else TotalMem(info) / 4096
  {
    MaxEndIsReached(info.entries);
  }

  /** Round up to a page number. */
  function PageUp(addr: nat): nat { ((addr + PAGE_SIZE - 1) % WORD) / PAGE_SIZE }

  /** First and last-plus-one page the code marks for a map entry; equal when it marks none. */
  function EntryPages(e: MapEntry, totalMem: nat, total: nat): (nat, nat)
  {
    if e.kind == 1 || e.addr >= totalMem then (0, 0)
    else
      var end: nat := if EndOf(e) > totalMem then totalMem else EndOf(e);
      var lo, hi := PageUp(e.addr), PageUp(end);
      var top := if hi < total then hi else total;
      if lo < top then (lo, top) else (0, 0)
  }

  predicate InPages(r: (nat, nat), p: nat) { r.0 <= p < r.1 }

  /** The code marks page p for this entry. */
  predicate Marks(info: BootInfo, e: MapEntry, p: nat) { InPages(EntryPages(e, TotalMem(info), TotalPages(info)), p) }

  /** One of the first n entries makes the code mark page p. */
  ghost predicate MarkedBy(info: BootInfo, n: nat, p: nat)
    requires n <= |info.entries|
  {
    exists j :: 0 <= j < n && Marks(info, info.entries[j], p)
  }

  ghost predicate Marked(info: BootInfo, p: nat) { info.hasMap && MarkedBy(info, |info.entries|, p) }

  // ---------------------------------------------------------------- what the map says

  /** The entry runs up to or past 4 GiB. */
  predicate Wraps(e: MapEntry) { e.addr + e.len >= WORD }

  /** The end of the entry can be rounded up to a page without wrapping. */
  predicate Roundable(e: MapEntry) { e.addr + e.len + PAGE_SIZE <= WORD }

  /** The base address of page p lies in the range of the entry. */
  predicate HoldsBase(e: MapEntry, p: nat) { e.addr <= p * PAGE_SIZE < e.addr + e.len }

  /** Page p and the range of the entry have an address in common. */
  predicate Overlaps(e: MapEntry, p: nat)
  {
    e.len > 0 && e.addr < (p + 1) * PAGE_SIZE && p * PAGE_SIZE < e.addr + e.len
  }

  /** An entry of the map that is not available memory. */
  predicate Refused(info: BootInfo, e: MapEntry) { info.hasMap && e in info.entries && e.kind != 1 }

  /** Such an entry that the code can round. */
  predicate Withheld(info: BootInfo, e: MapEntry) { Refused(info, e) && Roundable(e) }

  /** Page p has its base address inside such a range. */
  ghost predicate Reserved(info: BootInfo, p: nat) { exists e :: Withheld(info, e) && HoldsBase(e, p) }

  /**
   Both the start and the end of the entry wrap, the start when it is rounded up: it lies in the last page below
   4 GiB, memory reaches beyond it, and the code takes the entry for one from address 0 on.
   */
  predicate Stray(info: BootInfo, e: MapEntry)
  {
    Refused(info, e) && e.addr < TotalMem(info) && WORD < e.addr + PAGE_SIZE && Wraps(e) && EndOf(e) + PAGE_SIZE <= WORD
  }

  ghost predicate Strayed(info: BootInfo, p: nat) { exists e :: Stray(info, e) && p * PAGE_SIZE < EndOf(e) }

  lemma PageUpIsCeiling(addr: nat, p: nat)
    requires addr + PAGE_SIZE <= WORD
    ensures PageUp(addr) <= p <==> addr <= p * PAGE_SIZE
  {
  }

  lemma PageUpWraps(addr: Word32)
    requires WORD < addr + PAGE_SIZE
    ensures PageUp(addr) == 0
  {
  }

  /** Memory reaches to the end of every entry of the map. */
  lemma MapEndsInMemory(info: BootInfo, e: MapEntry)
    requires info.hasMap && e in info.entries
    ensures EndOf(e) <= TotalMem(info)
  {
    MaxEndIsReached(info.entries);
  }

  /** The pages marked for an entry of the map run between its rounded ends. */
  lemma MarksRounded(info: BootInfo, e: MapEntry, p: nat)
    requires info.hasMap && e in info.entries
    ensures Marks(info, e, p) <==>
      && e.kind != 1 && e.addr < TotalMem(info)
      && p < TotalPages(info) && PageUp(e.addr) <= p < PageUp(EndOf(e))
  {
    MapEndsInMemory(info, e);
  }

  lemma EndIsBelow(e: MapEntry)
    ensures EndOf(e) == if Wraps(e) then e.addr + e.len - WORD else e.addr + e.len
  {
  }

  /**
   The rounding of the code marks exactly the pages with their base in a range that can be rounded, none for
   other ranges, save that a stray one has the pages from 0 on marked.
   */
  lemma MarksAreBasePages(info: BootInfo, e: MapEntry, p: nat)
    requires info.hasMap && e in info.entries
    ensures Marks(info, e, p) <==>
      && p < TotalPages(info) && e.kind != 1
      && ((Roundable(e) && HoldsBase(e, p)) || (Stray(info, e) && p * PAGE_SIZE < EndOf(e)))
  {
    MarksRounded(info, e, p);
    if e.addr + PAGE_SIZE <= WORD { PageUpIsCeiling(e.addr, p); } else { PageUpWraps(e.addr); }
    if EndOf(e) + PAGE_SIZE <= WORD { PageUpIsCeiling(EndOf(e), p); } else { PageUpWraps(EndOf(e)); }
    EndIsBelow(e);
  }

  lemma MarkedIsReserved(info: BootInfo, p: nat)
    ensures Marked(info, p) <==> p < TotalPages(info) && (Reserved(info, p) || Strayed(info, p))
  {
    if Marked(info, p) {
      var j :| 0 <= j < |info.entries| && Marks(info, info.entries[j], p);
      MarksAreBasePages(info, info.entries[j], p);
      assert Refused(info, info.entries[j]);
    }
    if p < TotalPages(info) && (Reserved(info, p) || Strayed(info, p)) {
      var e :| Refused(info, e) && ((Roundable(e) && HoldsBase(e, p)) || (Stray(info, e) && p * PAGE_SIZE < EndOf(e)));
      MarksAreBasePages(info, e, p);
      var j :| 0 <= j < |info.entries| && info.entries[j] == e;
      assert Marks(info, info.entries[j], p);
    }
  }

  // ---------------------------------------------------------------- used pages after boot

  /** The pages of a kernel image in [kernelStart, kernelEnd). */
  predicate InKernel(kernelStart: nat, kernelEnd: nat, p: nat) { kernelStart / PAGE_SIZE <= p < PageUp(kernelEnd) }

  ghost predicate UsedAtBoot(info: BootInfo, kernelStart: nat, kernelEnd: nat, p: nat)
  {
    p < TotalPages(info) && (p == 0 || InKernel(kernelStart, kernelEnd, p) || Marked(info, p))
  }

  /** The kernel's pages are those that its image overlaps, wherever it starts and ends. */
  lemma KernelPagesOverlapImage(kernelStart: nat, kernelEnd: nat, p: nat)
    requires kernelStart < kernelEnd && kernelEnd + 4096 <= 0x1_0000_0000
    ensures InKernel(kernelStart, kernelEnd, p) <==> p * 4096 < kernelEnd && kernelStart < (p + 1) * 4096
  {
    PageUpIsCeiling(kernelEnd, p);
  }

  /** The used pages after boot, in terms of the ranges of the map, whatever map the boot loader hands over. */
  lemma BootPages(info: BootInfo, kernelStart: nat, kernelEnd: nat)
    ensures forall p: nat :: UsedAtBoot(info, kernelStart, kernelEnd, p) <==>
      && p < TotalPages(info)
      && (p == 0 || InKernel(kernelStart, kernelEnd, p) || Reserved(info, p) || Strayed(info, p))
  {
    forall p: nat
      ensures Marked(info, p) <==> p < TotalPages(info) && (Reserved(info, p) || Strayed(info, p))
    {
      MarkedIsReserved(info, p);
    }
  }

  /** The base of page p lies below the entry, which starts inside the page. */
  predicate StartsInside(e: MapEntry, p: nat) { p * PAGE_SIZE < e.addr < (p + 1) * PAGE_SIZE }

  /**
   A page of memory is left free exactly when it is not page 0, a kernel page or one a stray entry hits, and
   every non-available range that overlaps it cannot be rounded or starts inside it, past its base.
   */
  lemma OverlappedPageIsFreeIff(info: BootInfo, kernelStart: nat, kernelEnd: nat, p: nat)
    requires p < TotalPages(info)
    ensures !UsedAtBoot(info, kernelStart, kernelEnd, p)
       <==> p != 0 && !InKernel(kernelStart, kernelEnd, p) && !Strayed(info, p)
            && forall e :: Refused(info, e) && Overlaps(e, p) ==> StartsInside(e, p) || !Roundable(e)
  {
    MarkedIsReserved(info, p);
    forall e | Refused(info, e) ensures HoldsBase(e, p) <==> Overlaps(e, p) && !StartsInside(e, p) {}
    if forall e :: Refused(info, e) && Overlaps(e, p) ==> StartsInside(e, p) || !Roundable(e) {
      assert !Reserved(info, p);
    } else {
      var e :| Refused(info, e) && Overlaps(e, p) && !StartsInside(e, p) && Roundable(e);
      assert Withheld(info, e);
    }
  }

  /** A non-available entry has the page it starts in marked exactly when it starts at its base and can be rounded. */
  lemma FirstPageIsMarkedIff(info: BootInfo, e: MapEntry)
    requires Refused(info, e) && e.len > 0 && e.addr / PAGE_SIZE < TotalPages(info)
    ensures Overlaps(e, e.addr / PAGE_SIZE)
    ensures Marks(info, e, e.addr / PAGE_SIZE) <==> e.addr % PAGE_SIZE == 0 && Roundable(e)
  {
    MarksAreBasePages(info, e, e.addr / PAGE_SIZE);
  }

  /** All pages of memory with their base in the range are marked for the entry. */
  ghost predicate Honoured(info: BootInfo, e: MapEntry)
  {
    forall p :: 0 <= p < TotalPages(info) && HoldsBase(e, p) ==> Marks(info, e, p)
  }

  /** The last page of memory has its base at or past the start of the entry. */
  predicate ReachesMemory(info: BootInfo, e: MapEntry) { e.addr + PAGE_SIZE <= TotalPages(info) * PAGE_SIZE }

  /** A non-available entry is honoured exactly when it can be rounded or starts past the base of the last page. */
  lemma EntryIsHonouredIff(info: BootInfo, e: MapEntry)
    requires Refused(info, e)
    ensures Honoured(info, e) <==> Roundable(e) || !ReachesMemory(info, e)
  {
    if Roundable(e) {
      forall p | 0 <= p < TotalPages(info) && HoldsBase(e, p) ensures Marks(info, e, p) {
        MarksAreBasePages(info, e, p);
      }
    } else if ReachesMemory(info, e) {
      MarksAreBasePages(info, e, TotalPages(info) - 1);
      assert HoldsBase(e, TotalPages(info) - 1);
    }
  }

  /** Only the pages of its range are marked for an entry, exactly when it is not stray or ends at 4 GiB. */
  lemma EntryMarksOnlyItsPagesIff(info: BootInfo, e: MapEntry)
    requires Refused(info, e)
    ensures (forall p: nat :: Marks(info, e, p) ==> HoldsBase(e, p)) <==> !Stray(info, e) || EndOf(e) == 0
  {
    forall p: nat
      ensures Marks(info, e, p) <==>
        && p < TotalPages(info)
        && ((Roundable(e) && HoldsBase(e, p)) || (Stray(info, e) && p * PAGE_SIZE < EndOf(e)))
    {
      MarksAreBasePages(info, e, p);
    }
    if Stray(info, e) && EndOf(e) != 0 { assert Marks(info, e, 0) && !HoldsBase(e, 0); }
  }
}
