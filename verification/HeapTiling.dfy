/**
 The abstract kernel heap: the address range [base, top) cut into tiles, each free or live,
 together with what malloc and free do to the tiles and the laws that hold over every run.
 The allocator that keeps this tiling in headers inside memory is in HeapAllocator.dfy.
 */
module HeapTiling {
  import opened Sizes

  const HEAP_START: nat := 0xD000_0000
  const HEAP_INIT_PAGES: nat := 16
  const HEAP_ALIGN: nat := 8
  const HEADER: nat := 8           // sizeof(struct heap_block)
  const MIN_BLOCK: nat := 16

  // ---------------------------------------------------------------- 32-bit size arithmetic

  /** Block size for a request, in wrapping unsigned 32-bit arithmetic. */
  function Needed(size: nat): nat
  {
    var padded := (HEADER + size + HEAP_ALIGN - 1) % WORD;
    var rounded := padded - padded % HEAP_ALIGN;
    if rounded < MIN_BLOCK then MIN_BLOCK else rounded
  }

  /** Bytes the heap grows by for a block of the given size; wraps to 0 for the largest sizes. */
  function Growth(needed: nat): nat
  {
    var padded := (needed + PAGE_SIZE - 1) % WORD;
    padded - padded % PAGE_SIZE
  }

  lemma SizeArithmetic(size: nat)
    requires size < WORD
    ensures MIN_BLOCK <= Needed(size) < WORD && Needed(size) % HEAP_ALIGN == 0
    ensures Growth(Needed(size)) % PAGE_SIZE == 0
    ensures Growth(Needed(size)) > 0 ==> Needed(size) <= Growth(Needed(size)) < Needed(size) + PAGE_SIZE
    ensures Growth(Needed(size)) % HEAP_ALIGN == 0
  {
    PagesAreAligned(Growth(Needed(size)));
  }

  lemma PagesAreAligned(n: nat)
    requires n % PAGE_SIZE == 0
    ensures n % HEAP_ALIGN == 0
  {
    assert n == HEAP_ALIGN * (512 * (n / PAGE_SIZE));
  }

  /** Growth is lost to wrap-around exactly for requests within one page of 4 GiB. */
  lemma GrowthWrapsIff(size: nat)
    requires size < WORD
    ensures Growth(Needed(size)) == 0
       <==> WORD - PAGE_SIZE - HEADER < size <= WORD - HEADER - HEAP_ALIGN
  {
  }

  // ---------------------------------------------------------------- tiles

  datatype Tile = Tile(addr: nat, size: nat, live: bool) {
    function End(): nat { addr + size }
    ghost predicate Contains(a: nat) { addr <= a < End() }
  }

  datatype State = State(tiles: seq<Tile>, base: nat, top: nat)

  /** The free tiles in address order: what the linked free list must spell out. */
  ghost function FreeOf(tiles: seq<Tile>): seq<Tile>
  {
    if tiles == [] then []
    else (if tiles[0].live then [] else [tiles[0]]) + FreeOf(tiles[1..])
  }

  /** Tiles i and i + 1 meet exactly, and are not both free. */
  ghost predicate Joined(tiles: seq<Tile>, i: nat)
    requires i + 1 < |tiles|
  {
    tiles[i].End() == tiles[i + 1].addr && (tiles[i].live || tiles[i + 1].live)
  }

  ghost predicate Covers(s: State)
  {
    && (s.tiles == [] ==> s.base == s.top)
    && (s.tiles != [] ==> s.tiles[0].addr == s.base && s.tiles[|s.tiles| - 1].End() == s.top)
    && (forall i :: 0 <= i < |s.tiles| - 1 ==> Joined(s.tiles, i))
  }

  ghost predicate Sized(t: Tile)
  {
    t.size >= MIN_BLOCK && t.size % HEAP_ALIGN == 0 && t.addr % HEAP_ALIGN == 0
  }

  /** The heap invariant: an exact tiling of well-sized, fully coalesced tiles. */
  ghost predicate WellFormed(s: State)
  {
    && HEAP_START <= s.base && s.base % HEAP_ALIGN == 0 && s.top % HEAP_ALIGN == 0
    && s.top <= WORD
    && Covers(s)
    && (forall i {:trigger Sized(s.tiles[i])} :: 0 <= i < |s.tiles| ==> Sized(s.tiles[i]))
  }

  lemma {:induction false} TilesOrdered(s: State, i: nat, j: nat)
    requires WellFormed(s) && i < j < |s.tiles|
    ensures s.tiles[i].addr < s.tiles[i].End() <= s.tiles[j].addr < s.tiles[j].End()
    decreases j
  {
    if i + 1 < j {
      TilesOrdered(s, i, j - 1);
    }
    assert Joined(s.tiles, j - 1);
    assert Sized(s.tiles[i]) && Sized(s.tiles[j - 1]) && Sized(s.tiles[j]);
  }

  lemma NeighboursNotBothFree(s: State, i: nat)
    requires WellFormed(s) && i + 1 < |s.tiles|
    ensures s.tiles[i].live || s.tiles[i + 1].live
  {
    assert Joined(s.tiles, i);
  }

  lemma TilesInRange(s: State, i: nat)
    requires WellFormed(s) && i < |s.tiles|
    ensures s.base <= s.tiles[i].addr && s.tiles[i].End() <= s.top
  {
    if 0 < i { TilesOrdered(s, 0, i); }
    if i < |s.tiles| - 1 { TilesOrdered(s, i, |s.tiles| - 1); }
  }

  /** No gap: every address of the range lies in a tile. */
  lemma {:induction false} EveryAddressIsTiled(s: State, a: nat, k: nat) returns (i: nat)
    requires WellFormed(s) && s.base <= a < s.top
    requires k < |s.tiles| && s.tiles[k].addr <= a
    ensures i < |s.tiles| && s.tiles[i].Contains(a)
    decreases |s.tiles| - k
  {
    if s.tiles[k].Contains(a) {
      i := k;
    } else {
      assert k < |s.tiles| - 1;
      assert Joined(s.tiles, k);
      i := EveryAddressIsTiled(s, a, k + 1);
    }
  }

  /** The tiling partitions the range: each address lies in exactly one tile. */
  lemma TilingIsPartition(s: State, a: nat)
    requires WellFormed(s)
    ensures s.base <= a < s.top <==> exists i :: 0 <= i < |s.tiles| && s.tiles[i].Contains(a)
    ensures forall i, j ::
      0 <= i < |s.tiles| && 0 <= j < |s.tiles| && s.tiles[i].Contains(a) && s.tiles[j].Contains(a) ==> i == j
  {
    if s.base <= a < s.top {
      var i := EveryAddressIsTiled(s, a, 0);
    }
    forall i | 0 <= i < |s.tiles| && s.tiles[i].Contains(a)
      ensures s.base <= a < s.top
    {
      TilesInRange(s, i);
    }
    forall i, j | 0 <= i < j < |s.tiles| && s.tiles[i].Contains(a) && s.tiles[j].Contains(a)
      ensures false
    {
      TilesOrdered(s, i, j);
    }
  }

  // ---------------------------------------------------------------- malloc and free on tiles

  /** Index of the first free tile that fits, or |tiles| when there is none. */
  ghost function Fit(tiles: seq<Tile>, needed: nat): (k: nat)
    ensures k <= |tiles|
    ensures k < |tiles| ==> !tiles[k].live && tiles[k].size >= needed
    ensures forall j :: 0 <= j < k ==> tiles[j].live || tiles[j].size < needed
  {
    if tiles == [] then 0
    else if !tiles[0].live && tiles[0].size >= needed then 0
    else 1 + Fit(tiles[1..], needed)
  }

  /** A free tile cut for a request: the remainder stays free only if it can hold a block. */
  function Carve(t: Tile, needed: nat): seq<Tile>
    requires needed <= t.size
  {
    if t.size - needed >= MIN_BLOCK
    then [Tile(t.addr, needed, true), Tile(t.addr + needed, t.size - needed, false)]
    else [Tile(t.addr, t.size, true)]
  }

  /** First fit for a block of the given size, growing the range when nothing fits. */
  ghost function Place(s: State, needed: nat, grow: nat, pages: nat): (State, nat)
    requires needed <= grow
  {
    var k := Fit(s.tiles, needed);
    if k < |s.tiles| then
      (s.(tiles := s.tiles[..k] + Carve(s.tiles[k], needed) + s.tiles[k + 1..]), s.tiles[k].addr + HEADER)
    else if pages * PAGE_SIZE < grow then (s, 0)
    else (State(s.tiles + Carve(Tile(s.top, grow, false), needed), s.base, s.top + grow), s.top + HEADER)
  }

  /**
   What calls of vmm_alloc_page for pages from the heap top on would come to: so many pages mapped, then perhaps
   one frame returned that could not be mapped, then null.
   */
  datatype Supply = Supply(pages: nat, loose: bool)

  /** The heap, and the number of pages mapped from its top on, left behind by growths that failed half-way. */
  datatype Heap = Heap(tiling: State, spare: nat)

  /**
   What a call of malloc comes to: it returns a pointer or null; a store to a page that is not mapped stops the
   kernel; it returns a pointer past the heap top; or it returns a block whose last page is not mapped.
   */
  datatype Answer = Returned(ptr: nat) | Fault | Stray(ptr: nat) | Hollow(ptr: nat)

  /** A table is missing only for a page that was not mapped before and starts a new slot of 1024 pages. */
  predicate TableMayMiss(h: Heap, u: Supply)
  {
    h.spare <= u.pages && (h.tiling.top / PAGE_SIZE + u.pages) % 1024 == 0
  }

  /** The size is an unsigned int, and the pages that may still come end below 4 GiB. */
  ghost predicate MallocAllowed(h: Heap, size: nat, u: Supply)
  {
    size < WORD && h.tiling.top + (u.pages + 1) * PAGE_SIZE <= WORD && (u.loose ==> TableMayMiss(h, u))
  }

  /** Growth wraps to nothing. */
  predicate Wrapped(size: nat) { size != 0 && Growth(Needed(size)) == 0 }

  /** How far below the heap top the header of the remainder lands then: needed bytes above it, wrapping at 4 GiB. */
  function Behind(size: nat): int { WORD - Needed(size) }

  /** The pages mapped do not go beyond the heap top, or the remainder would land below the heap. */
  ghost predicate NowhereToWrite(h: Heap, size: nat)
  {
    h.spare == 0 || (Behind(size) >= MIN_BLOCK && h.tiling.top - Behind(size) < HEAP_START)
  }

  /** All pages of a growth but the last get mapped, and for the last there is only a frame. */
  predicate ShortByTable(grow: nat, u: Supply) { u.loose && grow == (u.pages + 1) * PAGE_SIZE }

  function SpareAfter(h: Heap, s: State, grow: nat): nat
  {
    if s.top == h.tiling.top then h.spare
    else if h.spare <= grow / PAGE_SIZE then 0
    else h.spare - grow / PAGE_SIZE
  }

  /** First fit; growth for which pages are missing leaves those it got mapped. */
  ghost function Serve(h: Heap, needed: nat, grow: nat, u: Supply): (Heap, Answer)
    requires needed <= grow
  {
    var (s, ptr) := Place(h.tiling, needed, grow, u.pages);
    if ptr != 0 then (Heap(s, SpareAfter(h, s, grow)), Returned(ptr))
    else
      (h.(spare := if h.spare < u.pages then u.pages else h.spare),
       if !ShortByTable(grow, u) then Returned(0)
       else if u.pages == 0 || grow - needed >= MIN_BLOCK then Fault
       else Hollow(h.tiling.top + HEADER))
  }

  /** What malloc does. Of the heap after an answer other than a plain return, only the answer is said here. */
  ghost function Malloc(h: Heap, size: nat, u: Supply): (Heap, Answer)
    requires MallocAllowed(h, size, u)
  {
    if size == 0 then (h, Returned(0))
    else if Wrapped(size) then (h, if NowhereToWrite(h, size) then Fault else Stray(h.tiling.top + HEADER))
    else SizeArithmetic(size); Serve(h, Needed(size), Growth(Needed(size)), u)
  }

  /** malloc handed out a block. */
  predicate Succeeds(a: Answer) { a.Returned? && a.ptr != 0 }

  ghost predicate LivePointer(s: State, ptr: nat)
  {
    exists t :: t in s.tiles && IsLiveAt(t, ptr)
  }

  predicate IsLiveAt(t: Tile, ptr: nat) { t.live && t.addr + HEADER == ptr }

  function MergedSize(tiles: seq<Tile>, k: nat): nat
    requires k < |tiles|
  {
    (if k > 0 && !tiles[k - 1].live then tiles[k - 1].size else 0)
    + tiles[k].size
    + (if k + 1 < |tiles| && !tiles[k + 1].live then tiles[k + 1].size else 0)
  }

  /** Tile k turned free and merged with whichever neighbours are free. */
  function FreeTile(tiles: seq<Tile>, k: nat): seq<Tile>
    requires k < |tiles|
  {
    var lo, hi := MergeLow(tiles, k), MergeHigh(tiles, k);
    tiles[..lo] + [Tile(tiles[lo].addr, MergedSize(tiles, k), false)] + tiles[hi + 1..]
  }

  /** Index of the live tile behind a pointer, or |tiles| when there is none. */
  ghost function Find(tiles: seq<Tile>, ptr: nat): (k: nat)
    ensures k <= |tiles|
    ensures k < |tiles| ==> IsLiveAt(tiles[k], ptr)
    ensures k == |tiles| ==> forall t :: t in tiles ==> !IsLiveAt(t, ptr)
  {
    if tiles == [] then 0 else if IsLiveAt(tiles[0], ptr) then 0 else 1 + Find(tiles[1..], ptr)
  }

  /** What free does: nothing for the null pointer, otherwise release the tile behind the pointer. */
  ghost function Free(s: State, ptr: nat): State
    requires ptr == 0 || LivePointer(s, ptr)
  {
    if ptr == 0 then s else s.(tiles := FreeTile(s.tiles, Find(s.tiles, ptr)))
  }

  lemma LivePointersAreUnique(s: State, ptr: nat, i: nat, j: nat)
    requires WellFormed(s) && i < |s.tiles| && j < |s.tiles|
    requires IsLiveAt(s.tiles[i], ptr) && IsLiveAt(s.tiles[j], ptr)
    ensures i == j
  {
    if i < j { TilesOrdered(s, i, j); }
    if j < i { TilesOrdered(s, j, i); }
  }

  // ---------------------------------------------------------------- preservation

  lemma CarvePreserves(s: State, k: nat, needed: nat)
    requires WellFormed(s) && k < |s.tiles| && !s.tiles[k].live
    requires MIN_BLOCK <= needed <= s.tiles[k].size && needed % HEAP_ALIGN == 0
    ensures WellFormed(s.(tiles := s.tiles[..k] + Carve(s.tiles[k], needed) + s.tiles[k + 1..]))
  {
    var tiles := s.tiles[..k] + Carve(s.tiles[k], needed) + s.tiles[k + 1..];
    forall i | 0 <= i < |tiles| - 1
      ensures Joined(tiles, i)
    {
      if i + 1 < k {
        assert Joined(s.tiles, i);
      } else if i + 1 == k {
        assert Joined(s.tiles, i);
      } else if i >= k + |Carve(s.tiles[k], needed)| {
        var d := i - |Carve(s.tiles[k], needed)| + 1;
        assert Joined(s.tiles, d) && tiles[i] == s.tiles[d] && tiles[i + 1] == s.tiles[d + 1];
      } else if i == k + |Carve(s.tiles[k], needed)| - 1 {
        assert tiles[i + 1] == s.tiles[k + 1];
        assert Joined(s.tiles, k);
      }
    }
    assert Sized(s.tiles[k]);
    CarvedIsSized(s.tiles[k], needed);
    forall i | 0 <= i < |tiles| ensures Sized(tiles[i]) {
      if i < k { assert Sized(s.tiles[i]); }
      if i >= k + |Carve(s.tiles[k], needed)| { assert Sized(s.tiles[i - |Carve(s.tiles[k], needed)| + 1]); }
    }
  }

  /** Both parts of a carved tile are aligned and big enough. */
  lemma CarvedIsSized(t: Tile, needed: nat)
    requires Sized(t) && MIN_BLOCK <= needed <= t.size && needed % HEAP_ALIGN == 0
    ensures forall i :: 0 <= i < |Carve(t, needed)| ==> Sized(Carve(t, needed)[i])
  {
  }

  lemma PlacePreserves(s: State, needed: nat, grow: nat, pages: nat)
    requires WellFormed(s) && MIN_BLOCK <= needed <= grow && needed % HEAP_ALIGN == 0 && grow % HEAP_ALIGN == 0
    requires s.top + pages * PAGE_SIZE <= WORD
    ensures WellFormed(Place(s, needed, grow, pages).0)
  {
    var k := Fit(s.tiles, needed);
    if k < |s.tiles| {
      CarvePreserves(s, k, needed);
    } else if pages * PAGE_SIZE >= grow {
      GrowPreserves(s, needed, grow);
    }
  }

  lemma MallocPreserves(h: Heap, size: nat, u: Supply)
    requires WellFormed(h.tiling) && MallocAllowed(h, size, u)
    ensures WellFormed(Malloc(h, size, u).0.tiling) && Malloc(h, size, u).0.tiling.base == h.tiling.base
  {
    SizeArithmetic(size);
    if size != 0 && !Wrapped(size) { PlacePreserves(h.tiling, Needed(size), Growth(Needed(size)), u.pages); }
  }

  /** Growth cannot leave two free tiles touching: the block handed out separates them. */
  lemma GrowPreserves(s: State, needed: nat, grow: nat)
    requires WellFormed(s) && MIN_BLOCK <= needed <= grow && needed % HEAP_ALIGN == 0 && grow % HEAP_ALIGN == 0
    requires s.top + grow <= WORD
    ensures WellFormed(State(s.tiles + Carve(Tile(s.top, grow, false), needed), s.base, s.top + grow))
  {
    var c := Carve(Tile(s.top, grow, false), needed);
    var tiles := s.tiles + c;
    var n := |s.tiles|;
    AlignedExtent(s.top, grow, 0);
    forall i | 0 <= i < |tiles| - 1
      ensures Joined(tiles, i)
    {
      if i + 1 < n {
        assert Joined(s.tiles, i);
      } else if i + 1 == n {
        assert tiles[i] == s.tiles[i] && tiles[i + 1] == c[0];
      } else {
        assert tiles[i] == c[0] && tiles[i + 1] == c[1];
      }
    }
    CarvedIsSized(Tile(s.top, grow, false), needed);
    forall i | 0 <= i < |tiles| ensures Sized(tiles[i]) {
      if i < n { assert Sized(s.tiles[i]); } else { assert tiles[i] == c[i - n]; }
    }
  }

  /** The range of tiles that freeing tile k fuses into one. */
  function MergeLow(tiles: seq<Tile>, k: nat): (lo: nat)
    requires k < |tiles|
    ensures lo <= k
  {
    if k > 0 && !tiles[k - 1].live then k - 1 else k
  }

  function MergeHigh(tiles: seq<Tile>, k: nat): (hi: nat)
    requires k < |tiles|
    ensures k <= hi < |tiles|
  {
    if k + 1 < |tiles| && !tiles[k + 1].live then k + 1 else k
  }

  lemma MergeExtent(s: State, k: nat)
    requires WellFormed(s) && k < |s.tiles| && s.tiles[k].live
    ensures var lo, hi := MergeLow(s.tiles, k), MergeHigh(s.tiles, k);
      && MergedSize(s.tiles, k) == s.tiles[hi].End() - s.tiles[lo].addr
      && (lo > 0 ==> s.tiles[lo - 1].live)
      && (hi + 1 < |s.tiles| ==> s.tiles[hi + 1].live)
  {
    if k > 0 { assert Joined(s.tiles, k - 1); }
    if k > 1 { assert Joined(s.tiles, k - 2); }
    if k + 1 < |s.tiles| { assert Joined(s.tiles, k); }
    if k + 2 < |s.tiles| { assert Joined(s.tiles, k + 1); }
  }

  lemma FreePreserves(s: State, k: nat)
    requires WellFormed(s) && k < |s.tiles| && s.tiles[k].live
    ensures WellFormed(s.(tiles := FreeTile(s.tiles, k)))
  {
    MergeExtent(s, k);
    assert Sized(s.tiles[k]);
    MergePreserves(s, MergeLow(s.tiles, k), MergeHigh(s.tiles, k));
  }

  lemma AlignedExtent(addr: nat, size: nat, from: nat)
    requires addr % HEAP_ALIGN == 0 && size % HEAP_ALIGN == 0 && from % HEAP_ALIGN == 0 && addr + size >= from
    ensures (addr + size - from) % HEAP_ALIGN == 0
  {
    assert addr + size - from == 8 * (addr / 8 + size / 8 - from / 8);
  }

  /** Tiles lo..hi replaced by one free tile of the same extent, between live neighbours. */
  lemma MergePreserves(s: State, lo: nat, hi: nat)
    requires WellFormed(s) && lo <= hi < |s.tiles|
    requires s.tiles[hi].End() - s.tiles[lo].addr >= MIN_BLOCK
    requires lo > 0 ==> s.tiles[lo - 1].live
    requires hi + 1 < |s.tiles| ==> s.tiles[hi + 1].live
    ensures
      var merged := Tile(s.tiles[lo].addr, s.tiles[hi].End() - s.tiles[lo].addr, false);
      WellFormed(s.(tiles := s.tiles[..lo] + [merged] + s.tiles[hi + 1..]))
  {
    var merged := Tile(s.tiles[lo].addr, s.tiles[hi].End() - s.tiles[lo].addr, false);
    assert Sized(merged) by {
      assert Sized(s.tiles[lo]) && Sized(s.tiles[hi]);
      AlignedExtent(s.tiles[hi].addr, s.tiles[hi].size, s.tiles[lo].addr);
    }
    var tiles := s.tiles[..lo] + [merged] + s.tiles[hi + 1..];
    forall i | 0 <= i < |tiles| - 1
      ensures Joined(tiles, i)
    {
      var d := if i < lo then i else i - lo + hi;
      assert Joined(s.tiles, d);
      assert i > lo ==> tiles[i] == s.tiles[d];
      assert i >= lo ==> tiles[i + 1] == s.tiles[d + 1];
    }
  }

  // ---------------------------------------------------------------- runs

  datatype Op = DoMalloc(size: nat, u: Supply) | DoFree(ptr: nat)

  /** Freed pointers are live. A malloc that faults, strays or hands out a hollow block ends the run before it. */
  ghost predicate Allowed(h: Heap, op: Op)
  {
    match op
    case DoMalloc(size, u) => MallocAllowed(h, size, u) && Malloc(h, size, u).1.Returned?
    case DoFree(ptr) => ptr == 0 || LivePointer(h.tiling, ptr)
  }

  ghost function Step(h: Heap, op: Op): Heap
    requires Allowed(h, op)
  {
    match op
    case DoMalloc(size, u) => Malloc(h, size, u).0
    case DoFree(ptr) => h.(tiling := Free(h.tiling, ptr))
  }

  /** r is reached from h by a sequence of requests. */
  ghost predicate Reaches(h: Heap, ops: seq<Op>, r: Heap)
    decreases |ops|
  {
    if ops == [] then r == h
    else Allowed(h, ops[0]) && Reaches(Step(h, ops[0]), ops[1..], r)
  }

  lemma StepPreserves(h: Heap, op: Op)
    requires WellFormed(h.tiling) && Allowed(h, op)
    ensures WellFormed(Step(h, op).tiling) && Step(h, op).tiling.base == h.tiling.base
  {
    match op
    case DoMalloc(size, u) => MallocPreserves(h, size, u);
    case DoFree(ptr) =>
      if ptr != 0 {
        FreePreserves(h.tiling, Find(h.tiling.tiles, ptr));
      }
  }

  /** Safety over whole runs: the heap stays an exact, coalesced tiling of its range. */
  lemma {:induction false} RunsPreserveTiling(h: Heap, ops: seq<Op>, r: Heap)
    requires WellFormed(h.tiling) && Reaches(h, ops, r)
    ensures WellFormed(r.tiling) && r.tiling.base == h.tiling.base
    decreases |ops|
  {
    if ops != [] {
      StepPreserves(h, ops[0]);
      RunsPreserveTiling(Step(h, ops[0]), ops[1..], r);
    }
  }

  /** Once nothing is live, coalescing has rebuilt one block over the whole range. */
  lemma {:induction false} QuiescentHeapIsOneBlock(h: Heap, ops: seq<Op>, r: Heap)
    requires WellFormed(h.tiling) && Reaches(h, ops, r)
    requires r.tiling.top > r.tiling.base && forall i :: 0 <= i < |r.tiling.tiles| ==> !r.tiling.tiles[i].live
    ensures r.tiling.tiles == [Tile(r.tiling.base, r.tiling.top - r.tiling.base, false)]
    ensures r.tiling.base == h.tiling.base
  {
    RunsPreserveTiling(h, ops, r);
    if |r.tiling.tiles| >= 2 {
      NeighboursNotBothFree(r.tiling, 0);
    }
  }

  // ---------------------------------------------------------------- malloc's promise

  /** A block placed at ptr as tile k of r, with every tile of s around index k kept. */
  ghost predicate Placed(s: State, r: State, ptr: nat, k: nat, needed: nat)
  {
    && k <= |s.tiles| && k < |r.tiles| && IsLiveAt(r.tiles[k], ptr)
    && needed <= r.tiles[k].size < needed + MIN_BLOCK
    && s.tiles[..k] == r.tiles[..k]
    && (forall i :: k < i < |s.tiles| ==> s.tiles[i] in r.tiles[k + 1..])
    && (k < |s.tiles| ==> !s.tiles[k].live)
  }

  lemma CarvedShape(s: State, k: nat, needed: nat)
    requires WellFormed(s) && k < |s.tiles| && !s.tiles[k].live && needed <= s.tiles[k].size
    ensures var r := s.(tiles := s.tiles[..k] + Carve(s.tiles[k], needed) + s.tiles[k + 1..]);
      Placed(s, r, s.tiles[k].addr + HEADER, k, needed)
  {
    var c := Carve(s.tiles[k], needed);
    var tiles := s.tiles[..k] + c + s.tiles[k + 1..];
    assert tiles[k] == c[0];
    forall i | k < i < |s.tiles| ensures s.tiles[i] in tiles[k + 1..] {
      assert tiles[k + 1..][i - k + |c| - 2] == s.tiles[i];
    }
  }

  lemma GrownShape(s: State, needed: nat, grow: nat)
    requires WellFormed(s) && needed <= grow < needed + PAGE_SIZE
    ensures var r := State(s.tiles + Carve(Tile(s.top, grow, false), needed), s.base, s.top + grow);
      Placed(s, r, s.top + HEADER, |s.tiles|, needed)
  {
    assert (s.tiles + Carve(Tile(s.top, grow, false), needed))[|s.tiles|] == Carve(Tile(s.top, grow, false), needed)[0];
  }

  lemma {:induction false} PlaceShape(s: State, needed: nat, grow: nat, pages: nat)
    requires WellFormed(s) && needed <= grow < needed + PAGE_SIZE && Place(s, needed, grow, pages).1 != 0
    ensures var (r, ptr) := Place(s, needed, grow, pages); Placed(s, r, ptr, Fit(s.tiles, needed), needed)
  {
    var k := Fit(s.tiles, needed);
    if k < |s.tiles| { CarvedShape(s, k, needed); } else { GrownShape(s, needed, grow); }
  }

  lemma MallocPlaces(h: Heap, size: nat, u: Supply)
    requires WellFormed(h.tiling) && MallocAllowed(h, size, u) && Succeeds(Malloc(h, size, u).1)
    ensures var (r, a) := Malloc(h, size, u);
      Placed(h.tiling, r.tiling, a.ptr, Fit(h.tiling.tiles, Needed(size)), Needed(size)) && Growth(Needed(size)) > 0
  {
    SizeArithmetic(size);
    PlaceShape(h.tiling, Needed(size), Growth(Needed(size)), u.pages);
  }

  ghost predicate Apart(t: Tile, b: Tile) { t.End() <= b.addr || b.End() <= t.addr }

  /** ptr is an aligned payload whose tile keeps clear of tile t, and t is still there. */
  ghost predicate FreshBeside(r: State, ptr: nat, t: Tile)
  {
    && t in r.tiles
    && ptr % HEAP_ALIGN == 0
    && exists b :: b in r.tiles && IsLiveAt(b, ptr) && Apart(t, b)
  }

  lemma PlacedBlockIsFresh(s: State, r: State, ptr: nat, k: nat, needed: nat, t: Tile)
    requires WellFormed(s) && WellFormed(r) && Placed(s, r, ptr, k, needed)
    requires t in s.tiles && t.live
    ensures FreshBeside(r, ptr, t)
  {
    assert r.tiles[k] in r.tiles && Sized(r.tiles[k]);
    var i :| 0 <= i < |s.tiles| && s.tiles[i] == t;
    if i < k {
      assert r.tiles[..k][i] == t;
      TilesOrdered(r, i, k);
    } else {
      var j :| 0 <= j < |r.tiles[k + 1..]| && r.tiles[k + 1..][j] == t;
      TilesOrdered(r, k, k + 1 + j);
    }
  }

  /** A returned payload is aligned and its tile overlaps no live tile; every live tile stays. */
  lemma MallocReturnsFreshBlock(h: Heap, size: nat, u: Supply, t: Tile)
    requires WellFormed(h.tiling) && MallocAllowed(h, size, u) && Succeeds(Malloc(h, size, u).1)
    requires t in h.tiling.tiles && t.live
    ensures FreshBeside(Malloc(h, size, u).0.tiling, Malloc(h, size, u).1.ptr, t)
  {
    var (r, a) := Malloc(h, size, u);
    var k := Fit(h.tiling.tiles, Needed(size));
    MallocPreserves(h, size, u);
    MallocPlaces(h, size, u);
    PlacedBlockIsFresh(h.tiling, r.tiling, a.ptr, k, Needed(size), t);
  }

  lemma {:induction false} PlacedBlockIsFound(s: State, r: State, ptr: nat, k: nat, needed: nat, t: Tile)
    requires WellFormed(r) && Placed(s, r, ptr, k, needed)
    requires t in r.tiles && IsLiveAt(t, ptr)
    ensures t == r.tiles[k] && Find(r.tiles, ptr) == k
  {
    var j :| 0 <= j < |r.tiles| && r.tiles[j] == t;
    LivePointersAreUnique(r, ptr, j, k);
    LivePointersAreUnique(r, ptr, Find(r.tiles, ptr), k);
  }

  /** A block for a request covers it exactly when the padded size does not wrap 32 bits. */
  lemma NeededCoversIff(size: nat, block: nat)
    requires size < WORD && Needed(size) <= block < Needed(size) + MIN_BLOCK
    requires Growth(Needed(size)) > 0
    ensures block - HEADER >= size <==> size <= WORD - HEADER - HEAP_ALIGN
  {
  }

  /** malloc covers the request exactly when the padded size does not wrap 32 bits. */
  lemma PayloadCoversRequestIff(h: Heap, size: nat, u: Supply, t: Tile)
    requires WellFormed(h.tiling) && MallocAllowed(h, size, u) && Succeeds(Malloc(h, size, u).1)
    requires t in Malloc(h, size, u).0.tiling.tiles && IsLiveAt(t, Malloc(h, size, u).1.ptr)
    ensures t.size - HEADER >= size <==> size <= WORD - HEADER - HEAP_ALIGN
  {
    var (r, a) := Malloc(h, size, u);
    MallocPreserves(h, size, u);
    MallocPlaces(h, size, u);
    PlacedBlockIsFound(h.tiling, r.tiling, a.ptr, Fit(h.tiling.tiles, Needed(size)), Needed(size), t);
    NeededCoversIff(size, t.size);
  }

  /** The heap after heap_init. */
  const INITIAL: State :=
    State([Tile(HEAP_START, HEAP_INIT_PAGES * PAGE_SIZE, false)], HEAP_START, HEAP_START + HEAP_INIT_PAGES * PAGE_SIZE)

  /** On the initial heap a request of 4 GiB less 8 bytes succeeds with a payload of 8 bytes. */
  lemma WrappedRequestExample()
    ensures WellFormed(INITIAL) && MallocAllowed(Heap(INITIAL, 0), 0xFFFF_FFF8, Supply(0, false))
    ensures var (r, a) := Malloc(Heap(INITIAL, 0), 0xFFFF_FFF8, Supply(0, false));
      a == Returned(0xD000_0008) && r.tiling.tiles[0] == Tile(0xD000_0000, 16, true)
    ensures INITIAL == State([Tile(0xD000_0000, 0x1_0000, false)], 0xD000_0000, 0xD001_0000)
  {
    assert Needed(0xFFFF_FFF8) == MIN_BLOCK && Growth(MIN_BLOCK) == PAGE_SIZE;
    assert Fit(INITIAL.tiles, MIN_BLOCK) == 0;
  }

  // ---------------------------------------------------------------- answers that break the promise

  /** A request whose growth wraps fits no block, so it always comes to grow by nothing. */
  lemma WrappedGrowthFitsNothing(s: State, size: nat)
    requires WellFormed(s) && size < WORD && Wrapped(size)
    ensures Fit(s.tiles, Needed(size)) == |s.tiles|
  {
    GrowthWrapsIff(size);
    assert Needed(size) > WORD - PAGE_SIZE;
    var k := Fit(s.tiles, Needed(size));
    if k < |s.tiles| { TilesInRange(s, k); }
  }

  /** Growth has to be tried, and all its pages but the last get mapped. */
  ghost predicate FallsShort(h: Heap, size: nat, u: Supply)
  {
    size != 0 && Fit(h.tiling.tiles, Needed(size)) == |h.tiling.tiles| && ShortByTable(Growth(Needed(size)), u)
  }

  /** malloc returned null, or a pointer to a live tile. */
  ghost predicate Sound(r: Heap, a: Answer) { a.Returned? && (a.ptr == 0 || LivePointer(r.tiling, a.ptr)) }

  /**
   malloc returns, and returns null or a pointer to a live tile of the heap, exactly when growth does not wrap to
   nothing and does not end in a page with a frame and no table. Otherwise it faults, or what it returns is no
   tile of the heap, and every tile is as it was.
   */
  lemma MallocIsSoundIff(h: Heap, size: nat, u: Supply)
    requires WellFormed(h.tiling) && MallocAllowed(h, size, u)
    ensures var (r, a) := Malloc(h, size, u);
      && (Sound(r, a) <==> !Wrapped(size) && !FallsShort(h, size, u))
      && (!Sound(r, a) ==> r.tiling == h.tiling && (a.Fault? || a.ptr == h.tiling.top + HEADER))
      && (a.Stray? || a.Hollow? ==> !LivePointer(r.tiling, a.ptr))
  {
    var (r, a) := Malloc(h, size, u);
    if Succeeds(a) {
      MallocPlaces(h, size, u);
      assert r.tiling.tiles[Fit(h.tiling.tiles, Needed(size))] in r.tiling.tiles;
    }
    if a.Stray? || a.Hollow? {
      forall t | t in r.tiling.tiles ensures !IsLiveAt(t, a.ptr) {
        var i :| 0 <= i < |r.tiling.tiles| && r.tiling.tiles[i] == t;
        TilesInRange(h.tiling, i);
        assert Sized(h.tiling.tiles[i]);
      }
    }
    if size != 0 && !Wrapped(size) { SizeArithmetic(size); }
  }

  /** On the initial heap a request of 0xFFFFF000 bytes grows by nothing, and stops the kernel at the first store. */
  lemma WrappedGrowthExample()
    ensures Growth(Needed(0xFFFF_F000)) == 0
    ensures MallocAllowed(Heap(INITIAL, 0), 0xFFFF_F000, Supply(1, false))
    ensures Malloc(Heap(INITIAL, 0), 0xFFFF_F000, Supply(1, false)).1 == Fault
  {
    assert Needed(0xFFFF_F000) == 0xFFFF_F008;
  }

  /** A heap that fills all but one page of its first slot. */
  const ALMOST_SLOT: State := State([Tile(HEAP_START, 0x3F_F000, true)], HEAP_START, HEAP_START + 0x3F_F000)

  /** With two frames left it hands out a block of two pages, the second of which is not mapped. */
  lemma HollowBlockExample()
    ensures WellFormed(ALMOST_SLOT) && MallocAllowed(Heap(ALMOST_SLOT, 0), 0x1FF8, Supply(1, true))
    ensures Malloc(Heap(ALMOST_SLOT, 0), 0x1FF8, Supply(1, true)).1 == Hollow(ALMOST_SLOT.top + HEADER)
  {
    assert Needed(0x1FF8) == 0x2000 && Growth(0x2000) == 0x2000;
    assert Fit(ALMOST_SLOT.tiles, 0x2000) == 1;
  }

  /** The initial heap as one live block. */
  const FULL: State := INITIAL.(tiles := [Tile(HEAP_START, HEAP_INIT_PAGES * PAGE_SIZE, true)])

  lemma TakeAllOfInitial()
    ensures MallocAllowed(Heap(INITIAL, 0), 0xFFF8, Supply(0, false))
    ensures Malloc(Heap(INITIAL, 0), 0xFFF8, Supply(0, false)) == (Heap(FULL, 0), Returned(HEAP_START + HEADER))
  {
    assert Needed(0xFFF8) == 0x1_0000 && Growth(0x1_0000) == 0x1_0000 && Fit(INITIAL.tiles, 0x1_0000) == 0;
    assert INITIAL.tiles[..0] + Carve(INITIAL.tiles[0], 0x1_0000) + INITIAL.tiles[1..] == FULL.tiles;
  }

  lemma FullGrowsHalfway()
    ensures MallocAllowed(Heap(FULL, 0), 0x2_0000, Supply(1, false))
    ensures Malloc(Heap(FULL, 0), 0x2_0000, Supply(1, false)) == (Heap(FULL, 1), Returned(0))
  {
    assert Needed(0x2_0000) == 0x2_0008 && Growth(0x2_0008) == 0x2_1000;
    assert Fit(FULL.tiles, 0x2_0008) == 1;
  }

  /** A tile of the heap that reaches past the given address. */
  ghost predicate LivePast(s: State, a: int) { exists t :: t in s.tiles && t.live && t.End() > a }

  /**
   A stray request leaves the bytes below the heap top on the free list as one block. That block reaches into a
   live tile exactly when the last tile is live, or is shorter than the block and not the only one.
   */
  lemma StrayOverlapsLiveIff(h: Heap, size: nat, u: Supply)
    requires WellFormed(h.tiling) && MallocAllowed(h, size, u) && Malloc(h, size, u).1.Stray? && h.tiling.tiles != []
    ensures var last := h.tiling.tiles[|h.tiling.tiles| - 1];
      LivePast(h.tiling, h.tiling.top - Behind(size)) <==>
        last.live || (last.size < Behind(size) && |h.tiling.tiles| > 1)
  {
    var s, n, a := h.tiling, |h.tiling.tiles|, h.tiling.top - Behind(size);
    var last := s.tiles[n - 1];
    SizeArithmetic(size);
    if last.live {
      assert last in s.tiles;
    } else if last.size < Behind(size) && n > 1 {
      NeighboursNotBothFree(s, n - 2);
      assert Joined(s.tiles, n - 2) && s.tiles[n - 2] in s.tiles;
    } else if LivePast(s, a) {
      var t :| t in s.tiles && t.live && t.End() > a;
      var i :| 0 <= i < n && s.tiles[i] == t;
      TilesOrdered(s, i, n - 1);
    }
  }

  /** A live tile c[0], with at most the free remainder c[1] behind it and live tiles around, freed. */
  lemma FreeBetweenLive(before: seq<Tile>, c: seq<Tile>, after: seq<Tile>)
    requires 1 <= |c| <= 2 && (|c| == 2 ==> !c[1].live)
    requires (before != [] ==> before[|before| - 1].live) && (after != [] ==> after[0].live)
    ensures FreeTile(before + c + after, |before|) ==
      before + [Tile(c[0].addr, if |c| == 2 then c[0].size + c[1].size else c[0].size, false)] + after
  {
    var tiles, k := before + c + after, |before|;
    assert tiles[k] == c[0] && (k > 0 ==> tiles[k - 1] == before[k - 1]);
    assert |c| == 2 ==> tiles[k + 1] == c[1];
    assert |c| == 1 && after != [] ==> tiles[k + 1] == after[0];
    assert tiles[..k] == before && tiles[k + |c|..] == after;
  }

  /** Undoing a carve: releasing the live tile merges the remainder back, and only the remainder. */
  lemma CarveMergesBack(tiles: seq<Tile>, k: nat, needed: nat)
    requires k < |tiles| && !tiles[k].live && needed <= tiles[k].size
    requires (k > 0 ==> tiles[k - 1].live) && (k + 1 < |tiles| ==> tiles[k + 1].live)
    ensures FreeTile(tiles[..k] + Carve(tiles[k], needed) + tiles[k + 1..], k) == tiles
  {
    FreeBetweenLive(tiles[..k], Carve(tiles[k], needed), tiles[k + 1..]);
    assert tiles == tiles[..k] + [tiles[k]] + tiles[k + 1..];
  }

  lemma FreeUndoesCarve(s: State, k: nat, needed: nat)
    requires WellFormed(s) && k < |s.tiles| && !s.tiles[k].live && needed <= s.tiles[k].size
    ensures FreeTile(s.tiles[..k] + Carve(s.tiles[k], needed) + s.tiles[k + 1..], k) == s.tiles
  {
    if k > 0 { NeighboursNotBothFree(s, k - 1); }
    if k + 1 < |s.tiles| { NeighboursNotBothFree(s, k); }
    CarveMergesBack(s.tiles, k, needed);
  }

  /** A block handed out without growth is carved from the first tile that fits. */
  lemma HandedFromFit(h: Heap, size: nat, u: Supply)
    requires WellFormed(h.tiling) && MallocAllowed(h, size, u)
    requires Succeeds(Malloc(h, size, u).1) && Malloc(h, size, u).0.tiling.top == h.tiling.top
    ensures var k, tiles := Fit(h.tiling.tiles, Needed(size)), h.tiling.tiles;
      && k < |tiles| && Malloc(h, size, u).1 == Returned(tiles[k].addr + HEADER)
      && Malloc(h, size, u).0 ==
         h.(tiling := h.tiling.(tiles := tiles[..k] + Carve(tiles[k], Needed(size)) + tiles[k + 1..]))
  {
    SizeArithmetic(size);
  }

  /** Freeing what malloc just carved restores every tile, hence the free list. */
  lemma FreeUndoesMalloc(h: Heap, size: nat, u: Supply)
    requires WellFormed(h.tiling) && MallocAllowed(h, size, u)
    requires Succeeds(Malloc(h, size, u).1) && Malloc(h, size, u).0.tiling.top == h.tiling.top
    ensures var (r, a) := Malloc(h, size, u);
      LivePointer(r.tiling, a.ptr) && r.(tiling := Free(r.tiling, a.ptr)) == h
  {
    MallocPreserves(h, size, u);
    MallocPlaces(h, size, u);
    var (r, a) := Malloc(h, size, u);
    var k := Fit(h.tiling.tiles, Needed(size));
    HandedFromFit(h, size, u);
    PlacedBlockIsFound(h.tiling, r.tiling, a.ptr, k, Needed(size), r.tiling.tiles[k]);
    FreeUndoesCarve(h.tiling, k, Needed(size));
  }
}
