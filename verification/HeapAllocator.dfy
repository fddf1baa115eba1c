/**
 The kernel allocator as it runs: block headers and the free list live inside the memory being
 managed, and malloc and free rewrite them in place. Each method is proved to do to the tiling
 exactly what HeapTiling says, and to leave every word of every other live block alone.
 */
module HeapAllocator {
  import opened Sizes
  import opened Folding
  import opened HeapTiling
  import opened HeapMemory
  import opened HeapStray

  predicate Aligned(a: nat) { a % 4 == 0 }

  /** The word at byte offset 4k of the view is word k. */
  ghost predicate Backed(words: seq<nat>, mem: seq<nat>)
  {
    |mem| == 4 * |words| && forall k :: 0 <= k < |words| ==> words[k] == mem[4 * k]
  }

  /** Every page granted has 1024 words. */
  ghost predicate Pages(granted: seq<seq<nat>>) { forall i :: 0 <= i < |granted| ==> |granted[i]| == 1024 }

  /** Page i of a run of pages. */
  ghost predicate PageIs(pages: seq<nat>, i: nat, page: seq<nat>)
  {
    (i + 1) * 1024 <= |pages| && pages[i * 1024..(i + 1) * 1024] == page
  }

  /** A view of the words. */
  ghost function Spread(words: seq<nat>): (mem: seq<nat>)
    ensures Backed(words, mem)
  {
    seq(4 * |words|, k requires 0 <= k < 4 * |words| => words[k / 4])
  }

  lemma WordIndex(a: nat)
    requires Aligned(a) && a >= HEAP_START
    ensures a - HEAP_START == 4 * ((a - HEAP_START) / 4)
  {
  }

  lemma FourTimes(k: nat)
    ensures Aligned(4 * k)
  {
  }

  lemma EightIsAligned(a: nat)
    requires a % HEAP_ALIGN == 0
    ensures Aligned(a)
  {
    assert a == 4 * (2 * (a / 8));
    FourTimes(2 * (a / 8));
  }

  lemma TileIsAligned(s: State, t: Tile)
    requires WellFormed(s) && t in s.tiles
    ensures Aligned(t.addr)
  {
    var k :| 0 <= k < |s.tiles| && s.tiles[k] == t;
    assert Sized(s.tiles[k]);
    EightIsAligned(t.addr);
  }

  /** All blocks of a list are at aligned addresses. */
  ghost predicate ListAligned(free: seq<Tile>) { forall j :: 0 <= j < |free| ==> Aligned(free[j].addr) }

  lemma ListIsAligned(s: State)
    requires WellFormed(s)
    ensures ListAligned(FreeOf(s.tiles))
  {
    FreeOfOrdered(s);
    forall j | 0 <= j < |FreeOf(s.tiles)|
      ensures Aligned(FreeOf(s.tiles)[j].addr)
    {
      TileIsAligned(s, FreeOf(s.tiles)[j]);
    }
  }

  // ---------------------------------------------------------------- the representation, folded

  /** Memory represents the tiling: folded up, so that a proof that does not need its parts does not see them. */
  ghost predicate Held(s: State, mem: seq<nat>, head: nat)
  {
    forall z: int {:trigger Unfold(z)} :: Unfold(z) ==> Represents(s, mem, head)
  }

  lemma HeldIs(s: State, mem: seq<nat>, head: nat)
    ensures Held(s, mem, head) <==> Represents(s, mem, head)
  {
    assert Unfold(0);
  }

  /** Every live tile but the one behind the pointer came through. */
  ghost predicate LiveKept(tiles: seq<Tile>, ptr: nat, mem: seq<nat>, mem': seq<nat>)
  {
    forall t :: t in tiles && t.live && t.addr + HEADER != ptr ==> Kept(t, 0, mem, mem')
  }

  lemma NothingChanged(s: State, mem: seq<nat>, head: nat, ptr: nat)
    requires Held(s, mem, head)
    ensures LiveKept(s.tiles, ptr, mem, mem)
  {
    HeldIs(s, mem, head);
    KeptAll(s, mem, head);
  }

  lemma HeldList(s: State, mem: seq<nat>, head: nat)
    requires Held(s, mem, head)
    ensures Walkable(mem, head, FreeOf(s.tiles)) && ListAligned(FreeOf(s.tiles)) && WellFormed(s)
  {
    HeldIs(s, mem, head);
    ListIsWalkable(s, mem, head);
    ListIsAligned(s);
  }

  lemma HeldTop(s: State, mem: seq<nat>, head: nat)
    requires Held(s, mem, head)
    ensures s.top == HEAP_START + |mem| && Aligned(s.top) && s.top % HEAP_ALIGN == 0
  {
    HeldIs(s, mem, head);
    EightIsAligned(s.top);
  }

  /** A block that can be split: header, link before it, alignment. */
  ghost predicate CanTake(mem: seq<nat>, prev: nat, block: nat, size: nat)
  {
    && Aligned(prev) && Aligned(block) && LinkInMemory(mem, prev)
    && InMemory(mem, Tile(block, size, false)) && Unmark(Load(mem, block)) == size
  }

  lemma TakeReady(s: State, mem: seq<nat>, head: nat, i: nat)
    requires Held(s, mem, head) && i < |FreeOf(s.tiles)|
    ensures var free := FreeOf(s.tiles); CanTake(mem, PrevAddr(free, i), free[i].addr, free[i].size)
  {
    HeldIs(s, mem, head);
    BlockIsListed(s, mem, head, i);
    ListIsAligned(s);
  }

  lemma HeldTake(s: State, mem: seq<nat>, head: nat, prev: nat, i: nat, needed: nat, t: Tile) returns (k: nat)
    requires Held(s, mem, head) && i < |FreeOf(s.tiles)| && t == FreeOf(s.tiles)[i]
    requires prev == PrevAddr(FreeOf(s.tiles), i)
    requires CanTake(mem, prev, t.addr, t.size) && MIN_BLOCK <= needed <= t.size && needed % HEAP_ALIGN == 0
    requires forall j :: 0 <= j < i ==> FreeOf(s.tiles)[j].size < needed
    ensures k < |s.tiles| && k == Fit(s.tiles, needed) && s.tiles[k] == t
    ensures var mem' := TakeWrites(mem, prev, t.addr, needed, t.size);
      Held(Carved(s, k, needed), mem', TakeHead(mem, head, prev, t.addr, needed, t.size))
        && LiveKept(s.tiles, 0, mem, mem')
  {
    HeldIs(s, mem, head);
    BlockIsListed(s, mem, head, i);
    k := TakeRepresents(s, mem, head, i, needed);
    HeldIs(Carved(s, k, needed), TakeWrites(mem, prev, t.addr, needed, t.size),
           TakeHead(mem, head, prev, t.addr, needed, t.size));
  }

  lemma GrowReady(s: State, mem: seq<nat>, head: nat, i: nat)
    requires Held(s, mem, head) && i <= |FreeOf(s.tiles)|
    requires i < |FreeOf(s.tiles)| ==> FreeOf(s.tiles)[i].addr >= s.top
    ensures i == |FreeOf(s.tiles)| && LinkInMemory(mem, PrevAddr(FreeOf(s.tiles), i))
    ensures Aligned(PrevAddr(FreeOf(s.tiles), i))
  {
    HeldIs(s, mem, head);
    ListedBelowTop(s, mem, head, i);
    LastListed(s, mem, head);
    ListIsAligned(s);
  }

  lemma HeldGrow(s: State, mem: seq<nat>, head: nat, prev: nat, needed: nat, pages: seq<nat>)
    requires Held(s, mem, head) && MIN_BLOCK <= needed <= |pages| && s.top + |pages| <= WORD
    requires s.top == HEAP_START + |mem|
    requires needed % HEAP_ALIGN == 0 && |pages| % HEAP_ALIGN == 0
    requires prev == PrevAddr(FreeOf(s.tiles), |FreeOf(s.tiles)|) && LinkInMemory(mem, prev)
    ensures var m1, h1 := GrowWrites(mem, pages, prev), RelinkHead(head, prev, s.top);
      && InMemory(m1, Tile(s.top, |pages|, false))
      && var mem' := TakeWrites(m1, prev, s.top, needed, |pages|);
      && var head' := TakeHead(m1, h1, prev, s.top, needed, |pages|);
      Held(Grown(s, needed, |pages|), mem', head') && LiveKept(s.tiles, 0, mem, mem')
  {
    HeldIs(s, mem, head);
    LastListed(s, mem, head);
    GrowTakeRepresents(s, mem, head, needed, pages);
    var m1, h1 := GrowWrites(mem, pages, prev), RelinkHead(head, prev, s.top);
    HeldIs(Grown(s, needed, |pages|), TakeWrites(m1, prev, s.top, needed, |pages|),
           TakeHead(m1, h1, prev, s.top, needed, |pages|));
  }

  /** A block that can be freed: header, the links around it, alignment. */
  ghost predicate CanFree(mem: seq<nat>, block: nat, size: nat, prev: nat, curr: nat)
  {
    && CanTake(mem, prev, block, size) && LinkInMemory(mem, curr) && Aligned(curr)
    && (prev != 0 ==> prev + MIN_BLOCK <= block)
  }

  lemma FreeReady(s: State, mem: seq<nat>, head: nat, k: nat, i: nat)
    requires Held(s, mem, head) && SplitsAt(s, k, i)
    ensures CanFree(mem, s.tiles[k].addr, s.tiles[k].size, PrevAddr(FreeOf(s.tiles), i), AddrAt(FreeOf(s.tiles), i))
  {
    HeldIs(s, mem, head);
    FreedBlockInGap(s, mem, head, k, i);
    ListIsAligned(s);
    TileIsAligned(s, s.tiles[k]);
  }

  lemma HeldFree(s: State, mem: seq<nat>, head: nat, k: nat, i: nat, prev: nat, curr: nat)
    requires Held(s, mem, head) && SplitsAt(s, k, i) && CanFree(mem, s.tiles[k].addr, s.tiles[k].size, prev, curr)
    requires prev == PrevAddr(FreeOf(s.tiles), i) && curr == AddrAt(FreeOf(s.tiles), i)
    ensures var t := s.tiles[k];
      var mem' := FreeWrites(mem, t.addr, t.size, prev, curr);
      && Held(s.(tiles := FreeTile(s.tiles, k)), mem', RelinkHead(head, prev, t.addr))
      && LiveKept(s.tiles, t.addr + HEADER, mem, mem')
  {
    var t := s.tiles[k];
    HeldIs(s, mem, head);
    FreedBlockInGap(s, mem, head, k, i);
    FreeRepresents(s, mem, head, k, i);
    HeldIs(s.(tiles := FreeTile(s.tiles, k)), FreeWrites(mem, t.addr, t.size, prev, curr),
           RelinkHead(head, prev, t.addr));
  }

  /** The last link of the list is null. */
  lemma LinkEndsNull(s: State, mem: seq<nat>, head: nat)
    requires Held(s, mem, head)
    ensures LinkInMemory(mem, LastAddr(s))
    ensures if LastAddr(s) == 0 then head == 0 else Load(mem, LastAddr(s) + 4) == 0
  {
    HeldIs(s, mem, head);
    var free := FreeOf(s.tiles);
    if free != [] {
      LastListed(s, mem, head);
      LastIsFree(s, mem, head);
      assert NextOk(mem, free, |free| - 1);
    }
  }

  /** Pages appended to memory with the header of a larger block at their front. */
  ghost predicate Hollowed(mem: seq<nat>, mem': seq<nat>, pages: seq<nat>, grow: nat)
  {
    |pages| >= MIN_BLOCK && mem' == mem + pages[0 := Mark(grow)][4 := 0]
  }

  lemma HollowedShows(mem: seq<nat>, mem': seq<nat>, pages: seq<nat>, grow: nat)
    requires Hollowed(mem, mem', pages, grow)
    ensures |mem'| == |mem| + |pages| && mem'[..|mem|] == mem && Load(mem', HEAP_START + |mem|) == Mark(grow)
  {
  }

  // ---------------------------------------------------------------- pages of 1024 words

  predicate WholePages(words: nat) { words % 1024 == 0 }

  lemma WholePagesAligned(words: nat)
    requires WholePages(words)
    ensures 4 * words % HEAP_ALIGN == 0
  {
    assert 4 * words == 8 * (512 * (words / 1024));
  }

  lemma WholePagesLess(a: nat, b: nat)
    requires WholePages(a) && WholePages(b)
    ensures b <= a ==> WholePages(a - b) && (a - b) / 1024 == a / 1024 - b / 1024
  {
    var p, q := a / 1024, b / 1024;
    assert a == 1024 * p && b == 1024 * q;
  }

  /** What the growth path comes to, with so many words mapped beyond the heap top. */
  lemma ServeGrows(h: Heap, needed: nat, grow: nat, u: Supply, beyond: nat)
    requires needed <= grow && grow % PAGE_SIZE == 0 && Fit(h.tiling.tiles, needed) == |h.tiling.tiles|
    requires WholePages(beyond) && h.spare == beyond / 1024 && MIN_BLOCK <= needed
    ensures grow / PAGE_SIZE <= u.pages ==>
      Serve(h, needed, grow, u) ==
      (Heap(Grown(h.tiling, needed, grow), (if beyond <= grow / 4 then 0 else beyond - grow / 4) / 1024),
       Returned(h.tiling.top + HEADER))
    ensures grow / PAGE_SIZE > u.pages ==>
      Serve(h, needed, grow, u) ==
      (h.(spare := (if beyond < u.pages * 1024 then u.pages * 1024 else beyond) / 1024),
       if !u.loose || grow / PAGE_SIZE != u.pages + 1 then Returned(0)
       else if u.pages == 0 || grow - needed >= MIN_BLOCK then Fault
       else Hollow(h.tiling.top + HEADER))
  {
    var p, n := beyond / 1024, grow / PAGE_SIZE;
    assert beyond == 1024 * p && grow == PAGE_SIZE * n && grow / 4 == 1024 * n;
    if n < p { WholePagesLess(beyond, grow / 4); }
  }

  lemma BehindIsAligned(top: nat, needed: nat)
    requires top % HEAP_ALIGN == 0 && needed % HEAP_ALIGN == 0 && needed < WORD && WORD - needed <= top
    ensures Aligned(top - (WORD - needed))
  {
    AlignedBelow(top, WORD - needed);
    EightIsAligned(top - (WORD - needed));
  }

  lemma PayloadInHeap(s: State, mem: seq<nat>, head: nat, t: Tile, a: nat, w: nat)
    requires Held(s, mem, head) && InPayload(s, t, a)
    ensures HEAP_START <= a < HEAP_START + |mem| && Held(s, Store(mem, a, w), head)
  {
    HeldIs(s, mem, head);
    var k :| 0 <= k < |s.tiles| && s.tiles[k] == t;
    TilesInRange(s, k);
    PayloadWriteRepresents(s, mem, head, t, a, w);
    HeldIs(s, Store(mem, a, w), head);
  }

  /** The words of a tile are the same. */
  ghost predicate SameWords(t: Tile, words: seq<nat>, words': seq<nat>)
  {
    forall k :: 0 <= k < |words| && t.addr <= HEAP_START + 4 * k < t.End() ==> k < |words'| && words'[k] == words[k]
  }

  lemma KeptWords(t: Tile, prev: nat, words: seq<nat>, mem: seq<nat>, words': seq<nat>, mem': seq<nat>)
    requires Backed(words, mem) && Backed(words', mem') && Kept(t, prev, mem, mem') && t.live
    ensures SameWords(t, words, words')
  {
    forall k | 0 <= k < |words| && t.addr <= HEAP_START + 4 * k < t.End()
      ensures k < |words'| && words'[k] == words[k]
    {
      assert t.Contains(HEAP_START + 4 * k);
      assert Load(mem', HEAP_START + 4 * k) == Load(mem, HEAP_START + 4 * k);
    }
  }

  class Allocator {
    var words: seq<nat>      // the words of [HEAP_START, heapTop)
    var heapFree: nat
    var heapTop: nat
    var beyond: seq<nat>     // the words of the pages mapped from heapTop on
    ghost var mem: seq<nat>  // the same, the word at byte offset k in cell k
    ghost var base: nat
    ghost var tiles: seq<Tile>

    ghost function View(): State
      reads this
    {
      State(tiles, base, heapTop)
    }

    ghost predicate Valid()
      reads this
    {
      Held(View(), mem, heapFree) && Backed(words, mem) && WholePages(|beyond|)
    }

    ghost function Whole(): Heap
      reads this
    {
      Heap(View(), |beyond| / 1024)
    }

    /** heap_init, given the pages the page allocator can supply. */
    constructor (granted: seq<seq<nat>>)
      requires Pages(granted)
      ensures Valid()
      ensures |granted| >= HEAP_INIT_PAGES ==> Whole() == Heap(INITIAL, 0)
      ensures |granted| < HEAP_INIT_PAGES ==>
        tiles == [] && heapTop == HEAP_START + |granted| * PAGE_SIZE && beyond == []
    {
      var start, free, top := [], 0, HEAP_START;
      var i := 0;
      while i < HEAP_INIT_PAGES && i < |granted|
        invariant 0 <= i <= HEAP_INIT_PAGES && i <= |granted|
        invariant |start| == i * 1024 && top == HEAP_START + i * PAGE_SIZE
      {
        start := start + granted[i];
        top := top + PAGE_SIZE;
        i := i + 1;
      }
      words, heapFree, heapTop, beyond := start, 0, top, [];
      mem, tiles, base := Spread(start), [], top;
      new;
      if i == HEAP_INIT_PAGES {
        WriteWord(HEAP_START, Mark(HEAP_INIT_PAGES * PAGE_SIZE));
        WriteWord(HEAP_START + 4, 0);
        heapFree := HEAP_START;
        tiles, base := INITIAL.tiles, HEAP_START;
        assert FreeOf(INITIAL.tiles) == INITIAL.tiles;
      }
      HeldIs(View(), mem, heapFree);
    }

    /** A word read; word accesses are aligned and inside the heap. */
    method ReadWord(a: nat) returns (w: nat)
      requires Backed(words, mem) && Aligned(a) && HEAP_START <= a < HEAP_START + |mem|
      ensures w == Load(mem, a)
    {
      WordIndex(a);
      w := words[(a - HEAP_START) / 4];
    }

    /** A word write, likewise. */
    method WriteWord(a: nat, w: nat)
      requires Backed(words, mem) && Aligned(a) && HEAP_START <= a < HEAP_START + |mem|
      modifies this`words, this`mem
      ensures Backed(words, mem) && mem == Store(old(mem), a, w)
    {
      WordIndex(a);
      words := words[(a - HEAP_START) / 4 := w];
      mem := Store(mem, a, w);
    }

    /** block->next. */
    method ReadNext(block: nat) returns (next: nat)
      requires Backed(words, mem) && Aligned(block) && HEAP_START <= block && block + 4 < HEAP_START + |mem|
      ensures next == Load(mem, block + 4)
    {
      next := ReadWord(block + 4);
    }

    method WriteNext(block: nat, next: nat)
      requires Backed(words, mem) && Aligned(block) && HEAP_START <= block && block + 4 < HEAP_START + |mem|
      modifies this`words, this`mem
      ensures Backed(words, mem) && mem == Store(old(mem), block + 4, next)
    {
      WriteWord(block + 4, next);
    }

    /** *pp = v, where pp is &heap_free (prev null) or the next field of block prev. */
    method SetLink(prev: nat, v: nat)
      requires Backed(words, mem) && LinkInMemory(mem, prev) && Aligned(prev)
      modifies this`words, this`mem, this`heapFree
      ensures Backed(words, mem) && mem == Relink(old(mem), prev, v) && heapFree == RelinkHead(old(heapFree), prev, v)
    {
      if prev == 0 { heapFree := v; } else { WriteNext(prev, v); }
    }

    /** The list walk of malloc: the first block that fits, and the block before it. */
    method FindFit(needed: nat, ghost free: seq<Tile>) returns (prev: nat, block: nat, ghost i: nat)
      requires Valid() && free == FreeOf(tiles)
      ensures i <= |free| && block == AddrAt(free, i) && prev == PrevAddr(free, i)
      ensures forall j :: 0 <= j < i ==> free[j].size < needed
      ensures i < |free| ==> free[i].size >= needed
      ensures block == 0 <==> i == |free|
    {
      HeldList(View(), mem, heapFree);
      prev, block, i := 0, heapFree, 0;
      while block != 0
        invariant i <= |free| && block == AddrAt(free, i) && prev == PrevAddr(free, i)
        invariant forall j :: 0 <= j < i ==> free[j].size < needed
        decreases |free| - i
      {
        assert NextOk(mem, free, i);
        var size := ReadWord(block);
        if Unmark(size) >= needed { break; }
        var next := ReadNext(block);
        prev, block := block, next;
        i := i + 1;
      }
      if i < |free| { assert NextOk(mem, free, i); }
    }

    /** Split the block behind a link, or unlink it when the rest is too small for a block. */
    method Unlist(prev: nat, block: nat, needed: nat)
      requires Backed(words, mem) && Aligned(prev) && Aligned(block) && Aligned(needed)
      requires HEAP_START <= block && block < HEAP_START + |mem| && LinkInMemory(mem, prev)
      requires MIN_BLOCK <= needed <= Unmark(Load(mem, block))
      requires InMemory(mem, Tile(block, Unmark(Load(mem, block)), false))
      modifies this`words, this`mem, this`heapFree
      ensures Backed(words, mem) && mem == TakeWrites(old(mem), prev, block, needed, Unmark(Load(old(mem), block)))
      ensures heapFree == TakeHead(old(mem), old(heapFree), prev, block, needed, Unmark(Load(old(mem), block)))
    {
      var size := ReadWord(block);
      var remaining := Unmark(size) - needed;
      if remaining >= MIN_BLOCK {
        WriteWord(block, Unmark(needed));
        var split := block + needed;
        WriteWord(split, Mark(remaining));
        var next := ReadNext(block);
        WriteNext(split, next);
        SetLink(prev, split);
      } else {
        var next := ReadNext(block);
        SetLink(prev, next);
      }
    }

    /** Ask for count pages. A frame that could not be mapped passes for a page. */
    method RequestPages(count: nat, granted: seq<seq<nat>>, loose: bool) returns (ok: bool, pages: seq<nat>)
      requires Pages(granted)
      ensures ok <==> count <= |granted| || (loose && count == |granted| + 1)
      ensures var n := if count < |granted| then count else |granted|;
        |pages| == n * 1024 && forall i :: 0 <= i < n ==> PageIs(pages, i, granted[i])
    {
      pages := [];
      var i := 0;
      while i < count
        invariant 0 <= i <= count && i <= |granted| && |pages| == i * 1024
        invariant forall h :: 0 <= h < i ==> PageIs(pages, h, granted[h])
      {
        if i >= |granted| { return loose && i + 1 == count, pages; }
        pages := pages + granted[i];
        i := i + 1;
      }
      ok := true;
    }

    /** The new pages become part of the heap. */
    method Extend(pages: seq<nat>)
      requires Backed(words, mem) && heapTop == HEAP_START + |mem|
      modifies this`words, this`mem, this`heapTop
      ensures Backed(words, mem) && mem == old(mem) + Spread(pages)
      ensures heapTop == old(heapTop) + 4 * |pages| && heapTop == HEAP_START + |mem|
    {
      heapTop := heapTop + 4 * |pages|;
      words := words + pages;
      mem := mem + Spread(pages);
    }

    /** Append granted pages as one block and link it behind prev. */
    method AppendBlock(prev: nat, next: nat, pages: seq<nat>)
      requires Backed(words, mem) && Aligned(heapTop) && Aligned(prev)
      requires heapTop == HEAP_START + |mem| && LinkInMemory(mem, prev) && next == 0 && 4 * |pages| >= MIN_BLOCK
      modifies this`words, this`mem, this`heapFree, this`heapTop
      ensures Backed(words, mem) && heapTop == old(heapTop) + 4 * |pages|
      ensures mem == GrowWrites(old(mem), Spread(pages), prev)
      ensures heapFree == RelinkHead(old(heapFree), prev, old(heapTop))
    {
      var addr := heapTop;
      Extend(pages);
      WriteWord(addr, Mark(4 * |pages|));
      WriteNext(addr, next);
      SetLink(prev, addr);
    }

    /** And take the request from it. */
    method Append(prev: nat, next: nat, needed: nat, pages: seq<nat>)
      requires Backed(words, mem) && Aligned(heapTop) && Aligned(prev) && Aligned(needed)
      requires heapTop == HEAP_START + |mem| && LinkInMemory(mem, prev) && next == 0
      requires MIN_BLOCK <= needed <= 4 * |pages|
      modifies this`words, this`mem, this`heapFree, this`heapTop
      ensures Backed(words, mem) && heapTop == old(heapTop) + 4 * |pages|
      ensures var m, top := GrowWrites(old(mem), Spread(pages), prev), old(heapTop);
        && mem == TakeWrites(m, prev, top, needed, 4 * |pages|)
        && heapFree == TakeHead(m, RelinkHead(old(heapFree), prev, top), prev, top, needed, 4 * |pages|)
    {
      var addr := heapTop;
      GrownHeader(mem, Spread(pages), prev);
      AppendBlock(prev, next, pages);
      Unlist(prev, addr, needed);
    }

    /** The growth path of malloc, once the pages are there. */
    method AppendAndTake(needed: nat, pages: seq<nat>) returns (ptr: nat)
      requires Valid() && MIN_BLOCK <= needed <= 4 * |pages| && needed % HEAP_ALIGN == 0
      requires 4 * |pages| % HEAP_ALIGN == 0
      requires heapTop + 4 * |pages| <= WORD
      modifies this`words, this`mem, this`heapFree, this`heapTop, this`tiles
      ensures Valid() && ptr == old(heapTop) + HEADER && View() == Grown(old(View()), needed, 4 * |pages|)
      ensures LiveKept(old(tiles), 0, old(mem), mem)
    {
      ghost var s, m, h := View(), mem, heapFree;
      EightIsAligned(needed);
      HeldTop(s, m, h);
      ptr := heapTop + HEADER;
      var prev, next, i := FindLink(heapTop, FreeOf(tiles));
      GrowReady(s, m, h, i);
      HeldGrow(s, m, h, prev, needed, Spread(pages));
      Append(prev, next, needed, pages);
      tiles := Grown(s, needed, 4 * |pages|).tiles;
      assert View() == Grown(s, needed, 4 * |pages|);
    }

    /** The walk to the link that points above addr: the blocks before it lie below addr. */
    method FindLink(addr: nat, ghost free: seq<Tile>) returns (prev: nat, curr: nat, ghost i: nat)
      requires Valid() && free == FreeOf(tiles)
      ensures i <= |free| && curr == AddrAt(free, i) && prev == PrevAddr(free, i)
      ensures i > 0 ==> free[i - 1].addr < addr
      ensures i < |free| ==> free[i].addr >= addr
      ensures curr == 0 <==> i == |free|
    {
      HeldList(View(), mem, heapFree);
      prev, curr, i := 0, heapFree, 0;
      while curr != 0 && curr < addr
        invariant i <= |free| && curr == AddrAt(free, i) && prev == PrevAddr(free, i)
        invariant i > 0 ==> free[i - 1].addr < addr
        decreases |free| - i
      {
        assert NextOk(mem, free, i);
        var next := ReadNext(curr);
        prev, curr := curr, next;
        i := i + 1;
      }
      if i < |free| { assert NextOk(mem, free, i); }
    }

    /** Hand out the first listed block that fits. */
    method TakeListed(prev: nat, block: nat, needed: nat, ghost i: nat) returns (ptr: nat)
      requires Valid() && i < |FreeOf(tiles)| && block == AddrAt(FreeOf(tiles), i) && prev == PrevAddr(FreeOf(tiles), i)
      requires MIN_BLOCK <= needed <= FreeOf(tiles)[i].size && needed % HEAP_ALIGN == 0
      requires forall j :: 0 <= j < i ==> FreeOf(tiles)[j].size < needed
      modifies this`words, this`mem, this`heapFree, this`tiles
      ensures Valid() && ptr == block + HEADER
      ensures var k := Fit(old(tiles), needed);
        k < |old(tiles)| && old(tiles)[k].addr == block && View() == Carved(old(View()), k, needed)
      ensures LiveKept(old(tiles), 0, old(mem), mem)
    {
      ghost var s, m, h := View(), mem, heapFree;
      EightIsAligned(needed);
      TakeReady(s, m, h, i);
      ghost var k := HeldTake(s, m, h, prev, i, needed, FreeOf(tiles)[i]);
      Unlist(prev, block, needed);
      tiles := Carved(s, k, needed).tiles;
      assert View() == Carved(s, k, needed);
      ptr := block + HEADER;
    }

    /** Pages were mapped from the heap top on, in place of those that may have been there. */
    method LeaveMapped(pages: seq<nat>)
      requires WholePages(|pages|) && WholePages(|beyond|)
      modifies this`beyond
      ensures |beyond| == (if |old(beyond)| < |pages| then |pages| else |old(beyond)|) && WholePages(|beyond|)
    {
      beyond := if |beyond| < |pages| then pages else pages + beyond[|pages|..];
    }

    /** The growth path of malloc with all its pages. */
    method GrowFully(needed: nat, pages: seq<nat>) returns (ptr: nat)
      requires Valid() && MIN_BLOCK <= needed <= 4 * |pages| && needed % HEAP_ALIGN == 0
      requires WholePages(|pages|) && heapTop + 4 * |pages| <= WORD
      modifies this
      ensures Valid() && ptr == old(heapTop) + HEADER
      ensures View() == Grown(old(View()), needed, 4 * |pages|)
      ensures |beyond| == if |old(beyond)| <= |pages| then 0 else |old(beyond)| - |pages|
      ensures LiveKept(old(tiles), 0, old(mem), mem)
    {
      WholePagesAligned(|pages|);
      WholePagesLess(|beyond|, |pages|);
      ptr := AppendAndTake(needed, pages);
      beyond := if |beyond| <= |pages| then [] else beyond[|pages|..];
    }

    /** The pages of a block whose last page has no memory behind it: the header, and the link put in and taken out. */
    method AppendHollow(prev: nat, next: nat, grow: nat, pages: seq<nat>)
      requires Backed(words, mem) && Aligned(heapTop) && Aligned(prev) && LinkInMemory(mem, prev) && next == 0
      requires heapTop == HEAP_START + |mem| && |pages| >= 4
      requires if prev == 0 then heapFree == 0 else Load(mem, prev + 4) == 0
      modifies this`words, this`mem, this`heapFree, this`heapTop
      ensures Hollowed(old(mem), mem, Spread(pages), grow) && Backed(words, mem)
      ensures heapTop == old(heapTop) + grow && heapFree == old(heapFree)
    {
      var addr := heapTop;
      Extend(pages);
      heapTop := addr + grow;
      WriteWord(addr, Mark(grow));
      WriteNext(addr, next);
      SetLink(prev, addr);
      var after := ReadNext(addr);
      SetLink(prev, after);
    }

    /** The growth path of malloc when the last page has a frame and no memory behind it, and no header lands there. */
    method GrowHollow(grow: nat, pages: seq<nat>) returns (ptr: nat)
      requires Valid() && |pages| >= 1024 && grow == 4 * |pages| + PAGE_SIZE
      modifies this`words, this`mem, this`heapFree, this`heapTop
      ensures ptr == old(heapTop) + HEADER
      ensures HollowBlock(old(mem), old(heapTop), old(heapFree), grow)
    {
      ghost var s, m, h := View(), mem, heapFree;
      HeldTop(s, m, h);
      ptr := heapTop + HEADER;
      var prev, next, i := FindLink(heapTop, FreeOf(tiles));
      GrowReady(s, m, h, i);
      LinkEndsNull(s, m, h);
      AppendHollow(prev, next, grow, pages);
      HollowedShows(m, mem, Spread(pages), grow);
    }

    /** The growth path of malloc with a page missing; passed says that all the frames were there. */
    method GrowShort(needed: nat, grow: nat, pages: seq<nat>, passed: bool) returns (answer: Answer)
      requires Valid() && needed <= grow && WholePages(|pages|) && (passed ==> grow == 4 * |pages| + PAGE_SIZE)
      modifies this
      ensures answer ==
        if !passed then Returned(0)
        else if pages == [] || grow - needed >= MIN_BLOCK then Fault
        else Hollow(old(heapTop) + HEADER)
      ensures answer.Returned? ==>
        && Valid() && View() == old(View()) && LiveKept(old(tiles), 0, old(mem), mem)
        && |beyond| == if |old(beyond)| < |pages| then |pages| else |old(beyond)|
      ensures answer.Hollow? ==> HollowBlock(old(mem), old(heapTop), old(heapFree), grow)
    {
      if !passed {
        NothingChanged(View(), mem, heapFree, 0);
        LeaveMapped(pages);
        return Returned(0);
      }
      if pages == [] || grow - needed >= MIN_BLOCK { return Fault; }
      var ptr := GrowHollow(grow, pages);
      answer := Hollow(ptr);
    }

    /** The growth path of malloc. */
    method GrowBlock(needed: nat, grow: nat, granted: seq<seq<nat>>, loose: bool) returns (answer: Answer)
      requires Valid() && MIN_BLOCK <= needed <= grow && needed % HEAP_ALIGN == 0 && grow % PAGE_SIZE == 0
      requires Pages(granted) && heapTop + (|granted| + 1) * PAGE_SIZE <= WORD
      requires Fit(tiles, needed) == |tiles|
      modifies this
      ensures answer == Serve(old(Whole()), needed, grow, Supply(|granted|, loose)).1
      ensures answer.Returned? ==> Valid() && Whole() == Serve(old(Whole()), needed, grow, Supply(|granted|, loose)).0
      ensures answer.Returned? ==> LiveKept(old(tiles), 0, old(mem), mem)
      ensures answer.Hollow? ==> HollowBlock(old(mem), old(heapTop), old(heapFree), grow)
    {
      ServeGrows(Whole(), needed, grow, Supply(|granted|, loose), |beyond|);
      var ok, pages := RequestPages(grow / PAGE_SIZE, granted, loose);
      if 4 * |pages| < grow {
        answer := GrowShort(needed, grow, pages, ok);
      } else {
        var ptr := GrowFully(needed, pages);
        answer := Returned(ptr);
      }
    }

    /** The block handed out ends where the heap does, and for its last page there is no memory. */
    ghost predicate HollowBlock(before: seq<nat>, top: nat, head: nat, grow: nat)
      reads this
    {
      && heapTop == top + grow && 4 * |words| + PAGE_SIZE == heapTop - HEAP_START && heapFree == head
      && |mem| >= |before| + HEADER && mem[..|before|] == before && Load(mem, HEAP_START + |before|) == Mark(grow)
    }

    /** First fit, growing when nothing fits. */
    method PlaceBlock(needed: nat, grow: nat, granted: seq<seq<nat>>, loose: bool) returns (answer: Answer)
      requires Valid() && MIN_BLOCK <= needed <= grow && needed % HEAP_ALIGN == 0 && grow % PAGE_SIZE == 0
      requires Pages(granted) && heapTop + (|granted| + 1) * PAGE_SIZE <= WORD
      modifies this
      ensures answer == Serve(old(Whole()), needed, grow, Supply(|granted|, loose)).1
      ensures answer.Returned? ==> Valid() && Whole() == Serve(old(Whole()), needed, grow, Supply(|granted|, loose)).0
      ensures answer.Returned? ==> LiveKept(old(tiles), 0, old(mem), mem)
      ensures answer.Hollow? ==> HollowBlock(old(mem), old(heapTop), old(heapFree), grow)
    {
      var prev, block, i := FindFit(needed, FreeOf(tiles));
      if block != 0 {
        var ptr := TakeListed(prev, block, needed, i);
        answer := Returned(ptr);
      } else {
        NoListedFitMeansNoFit(View(), needed);
        answer := GrowBlock(needed, grow, granted, loose);
      }
    }

    /** malloc, where vmm_alloc_page would map the granted pages, then perhaps return a frame that is not mapped. */
    method Malloc(size: nat, granted: seq<seq<nat>>, loose: bool) returns (answer: Answer)
      requires Valid() && Pages(granted) && MallocAllowed(Whole(), size, Supply(|granted|, loose))
      modifies this
      ensures answer == HeapTiling.Malloc(old(Whole()), size, Supply(|granted|, loose)).1
      ensures answer.Returned? ==>
        && Valid() && Whole() == HeapTiling.Malloc(old(Whole()), size, Supply(|granted|, loose)).0
        && forall t :: t in old(tiles) && t.live ==> SameWords(t, old(words), words)
      ensures answer.Stray? ==>
        View() == old(View()) && StrayBlock(old(mem), old(heapFree), LastAddr(old(View())), Behind(size))
      ensures answer.Hollow? ==> HollowBlock(old(mem), old(heapTop), old(heapFree), Growth(Needed(size)))
    {
      if size == 0 {
        NothingChanged(View(), mem, heapFree, 0);
        answer := Returned(0);
      } else if Growth(Needed(size)) == 0 {
        answer := Wrap(size);
      } else {
        SizeArithmetic(size);
        answer := PlaceBlock(Needed(size), Growth(Needed(size)), granted, loose);
      }
      if answer.Returned? {
        forall t | t in old(tiles) && t.live ensures SameWords(t, old(words), words) {
          KeptWords(t, 0, old(words), old(mem), words, mem);
        }
      }
    }

    /** The heap after a stray request: the remainder of d bytes is listed last, unless it is too small for a block. */
    ghost predicate StrayBlock(before: seq<nat>, head: nat, prev: nat, d: int)
      reads this
    {
      && Backed(words, mem) && HEAP_START + |before| == heapTop && LinkInMemory(before, prev)
      && if d < MIN_BLOCK then mem == before && heapFree == head
         else d <= |before| && mem == StrayWrites(before, prev, d) && heapFree == RelinkHead(head, prev, heapTop - d)
    }

    /** A request whose growth wraps: nothing listed fits, no page is asked for, and a block of no bytes is split. */
    method Wrap(size: nat) returns (answer: Answer)
      requires Valid() && size < WORD && Wrapped(size)
      modifies this
      ensures answer == if NowhereToWrite(old(Whole()), size) then Fault else Stray(old(heapTop) + HEADER)
      ensures answer.Stray? ==>
        View() == old(View()) && StrayBlock(old(mem), old(heapFree), LastAddr(old(View())), Behind(size))
    {
      var needed := Needed(size);
      SizeArithmetic(size);
      HeldTop(View(), mem, heapFree);
      var block := FindNothing(needed, size);
      if beyond == [] { return Fault; }
      var remaining := WORD - needed;
      if remaining >= MIN_BLOCK && heapTop - remaining < HEAP_START { return Fault; }
      var ptr := SplitNothing(needed);
      answer := Stray(ptr);
    }

    /** The block of no bytes at the heap top, linked in behind prev and split as if it had room. */
    method SplitBehind(prev: nat, next: nat, needed: nat)
      requires Backed(words, mem) && Aligned(prev) && LinkInMemory(mem, prev) && next == 0 && |beyond| >= 2
      requires heapTop == HEAP_START + |mem| && heapTop % HEAP_ALIGN == 0
      requires needed < WORD && needed % HEAP_ALIGN == 0 && (WORD - needed < MIN_BLOCK || WORD - needed <= |mem|)
      requires if prev == 0 then heapFree == 0 else Load(mem, prev + 4) == 0
      modifies this`words, this`mem, this`heapFree, this`beyond
      ensures StrayBlock(old(mem), old(heapFree), prev, WORD - needed)
    {
      beyond := beyond[0 := Mark(0)];
      beyond := beyond[1 := next];
      SetLink(prev, heapTop);
      var remaining := WORD - needed;
      if remaining >= MIN_BLOCK {
        beyond := beyond[0 := Unmark(needed)];
        var split := heapTop - remaining;
        BehindIsAligned(heapTop, needed);
        ListLast(prev, split, Mark(remaining), beyond[1]);
      } else {
        SetLink(prev, beyond[1]);
      }
    }

    /** A header written at split, and the link behind prev pointed at it. */
    method ListLast(prev: nat, split: nat, size: nat, next: nat)
      requires Backed(words, mem) && Aligned(prev) && LinkInMemory(mem, prev)
      requires Aligned(split) && HEAP_START <= split && split + 4 < HEAP_START + |mem|
      modifies this`words, this`mem, this`heapFree
      ensures Backed(words, mem) && mem == Relink(Store(Store(old(mem), split, size), split + 4, next), prev, split)
      ensures heapFree == RelinkHead(old(heapFree), prev, split)
    {
      WriteWord(split, size);
      WriteNext(split, next);
      SetLink(prev, split);
    }

    method SplitNothing(needed: nat) returns (ptr: nat)
      requires Valid() && needed < WORD && needed % HEAP_ALIGN == 0 && |beyond| >= 2
      requires WORD - needed < MIN_BLOCK || WORD - needed <= |mem|
      modifies this`words, this`mem, this`heapFree, this`beyond
      ensures ptr == heapTop + HEADER
      ensures StrayBlock(old(mem), old(heapFree), LastAddr(View()), WORD - needed)
    {
      ghost var s, m, h := View(), mem, heapFree;
      HeldTop(s, m, h);
      var prev, next, i := FindLink(heapTop, FreeOf(tiles));
      GrowReady(s, m, h, i);
      LinkEndsNull(s, m, h);
      SplitBehind(prev, next, needed);
      ptr := heapTop + HEADER;
    }

    /** The walk for a request whose growth wraps ends without a block. */
    method FindNothing(needed: nat, ghost size: nat) returns (block: nat)
      requires Valid() && size < WORD && Wrapped(size) && needed == Needed(size)
      ensures block == 0
    {
      HeldList(View(), mem, heapFree);
      WrappedGrowthFitsNothing(View(), size);
      NoFitMeansNoListedFit(View(), needed);
      ghost var prev, i;
      prev, block, i := FindFit(needed, FreeOf(tiles));
    }

    /** The owner of a block stores a word in it. */
    method WritePayload(ghost t: Tile, a: nat, w: nat)
      requires Valid() && InPayload(View(), t, a) && Aligned(a)
      modifies this`words, this`mem
      ensures Valid() && Whole() == old(Whole())
      ensures |words| == |old(words)|
      ensures forall k :: 0 <= k < |words| ==> words[k] == if HEAP_START + 4 * k == a then w else old(words)[k]
    {
      PayloadInHeap(View(), mem, heapFree, t, a, w);
      WriteWord(a, w);
    }

    /** A block takes over the one behind it: their sizes together, and its next pointer. */
    method Absorb(block: nat, size: nat, other: nat)
      requires Backed(words, mem) && Aligned(block) && Aligned(other) && size >= MIN_BLOCK
      requires HEAP_START <= block && block + 4 < HEAP_START + |mem| && HEAP_START <= other
      requires other + 4 < HEAP_START + |mem|
      requires block + size == other
      modifies this`words, this`mem
      ensures Backed(words, mem)
      ensures mem ==
        Store(Store(old(mem), block, Mark(size + Unmark(Load(old(mem), other)))), block + 4, Load(old(mem), other + 4))
    {
      var otherSize := ReadWord(other);
      WriteWord(block, Mark(size + Unmark(otherSize)));
      var next := ReadNext(other);
      WriteNext(block, next);
    }

    /** free, first half: mark the block and take over the successor if it touches. */
    method TakeOverNext(block: nat, curr: nat)
      requires Backed(words, mem) && Aligned(block) && Aligned(curr)
      requires HEAP_START <= block < HEAP_START + |mem| && InMemory(mem, Tile(block, Unmark(Load(mem, block)), false))
      requires LinkInMemory(mem, curr)
      modifies this`words, this`mem
      ensures Backed(words, mem) && mem == JoinNext(old(mem), block, Unmark(Load(old(mem), block)), curr)
    {
      var size := ReadWord(block);
      var blockSize := Unmark(size);
      WriteWord(block, Mark(blockSize));
      if curr != 0 && block + blockSize == curr {
        Absorb(block, blockSize, curr);
      } else {
        WriteNext(block, curr);
      }
    }

    /** free, second half: link the block in, and give it to the predecessor if that touches. */
    method GiveToPrev(block: nat, prev: nat)
      requires Backed(words, mem) && Aligned(block) && Aligned(prev)
      requires LinkInMemory(mem, prev) && LinkInMemory(mem, block) && block != 0
      requires prev != 0 ==> prev + MIN_BLOCK <= block
      modifies this`words, this`mem, this`heapFree
      ensures Backed(words, mem) && mem == JoinPrev(Relink(old(mem), prev, block), block, prev)
      ensures heapFree == RelinkHead(old(heapFree), prev, block)
    {
      SetLink(prev, block);
      if prev != 0 {
        var prevSize := ReadWord(prev);
        if prev + Unmark(prevSize) == block { Absorb(prev, Unmark(prevSize), block); }
      }
    }

    /** All the writes of free, once the walk has found the neighbours in the list. */
    method Rejoin(block: nat, prev: nat, curr: nat, ghost size: nat)
      requires Backed(words, mem) && Aligned(block) && Aligned(prev) && Aligned(curr)
      requires InMemory(mem, Tile(block, size, false)) && Unmark(Load(mem, block)) == size
      requires LinkInMemory(mem, prev) && LinkInMemory(mem, curr) && (prev != 0 ==> prev + MIN_BLOCK <= block)
      modifies this`words, this`mem, this`heapFree
      ensures Backed(words, mem) && mem == FreeWrites(old(mem), block, size, prev, curr)
      ensures heapFree == RelinkHead(old(heapFree), prev, block)
    {
      TakeOverNext(block, curr);
      GiveToPrev(block, prev);
    }

    /** Release live tile k, which lies in the list gap before index i. */
    method Release(block: nat, prev: nat, curr: nat, ghost k: nat, ghost i: nat)
      requires Valid() && SplitsAt(View(), k, i) && block == tiles[k].addr
      requires prev == PrevAddr(FreeOf(tiles), i) && curr == AddrAt(FreeOf(tiles), i)
      modifies this`words, this`mem, this`heapFree, this`heapTop, this`tiles
      ensures Valid() && View() == old(View()).(tiles := FreeTile(old(tiles), k))
      ensures LiveKept(old(tiles), block + HEADER, old(mem), mem)
    {
      ghost var s, m, h := View(), mem, heapFree;
      FreeReady(s, m, h, k, i);
      HeldFree(s, m, h, k, i, prev, curr);
      Rejoin(block, prev, curr, tiles[k].size);
      tiles := FreeTile(s.tiles, k);
      assert View() == s.(tiles := FreeTile(s.tiles, k));
    }

    /** free. */
    method Free(ptr: nat)
      requires Valid() && (ptr == 0 || LivePointer(View(), ptr))
      modifies this
      ensures Valid() && View() == HeapTiling.Free(old(View()), ptr)
      ensures forall t :: t in old(tiles) && t.live && t.addr + HEADER != ptr ==> SameWords(t, old(words), words)
    {
      GiveBack(ptr);
      forall t | t in old(tiles) && t.live && t.addr + HEADER != ptr ensures SameWords(t, old(words), words) {
        KeptWords(t, 0, old(words), old(mem), words, mem);
      }
    }

    /** What free does to headers and links. */
    method GiveBack(ptr: nat)
      requires Valid() && (ptr == 0 || LivePointer(View(), ptr))
      modifies this
      ensures Valid() && View() == HeapTiling.Free(old(View()), ptr)
      ensures LiveKept(old(tiles), ptr, old(mem), mem)
    {
      if ptr == 0 {
        NothingChanged(View(), mem, heapFree, ptr);
        return;
      }
      var block := ptr - HEADER;
      HeldList(View(), mem, heapFree);
      var prev, curr, i := FindLink(block, FreeOf(tiles));
      ghost var k := Find(tiles, ptr);
      WalkFindsSplit(View(), k, i);
      Release(block, prev, curr, k, i);
    }
  }

  // ---------------------------------------------------------------- a request that reaches into live memory

  /** A heap that is one live block, where a request for 128 KiB has failed and left a page mapped. */
  method HalfGrown() returns (h: Allocator)
    ensures fresh(h) && h.Valid() && h.Whole() == Heap(FULL, 1)
  {
    var page: seq<nat> := seq(1024, _ => 0);
    h := new Allocator(seq(HEAP_INIT_PAGES, _ => page));
    TakeAllOfInitial();
    FullGrowsHalfway();
    var all := h.Malloc(0xFFF8, [], false);
    var none := h.Malloc(0x2_0000, [page], false);
  }

  /**
   malloc(0xFFFFF000) after a growth that failed half-way: the head of the free list comes to point into the only
   live block, whose word there is overwritten, and the pointer returned lies past the heap.
   */
  method StrayRequestExample() returns (h: Allocator, answer: Answer)
    ensures fresh(h) && h.heapTop == HEAP_START + 0x1_0000 && h.tiles == [Tile(HEAP_START, 0x1_0000, true)]
    ensures answer == Stray(h.heapTop + HEADER) && h.heapFree == h.heapTop - 0xFF8
    ensures |h.words| == 0x4000 && h.words[(0x1_0000 - 0xFF8) / 4] == 0xFF9
  {
    h := HalfGrown();
    ghost var s, m := h.View(), h.mem;
    HeldTop(s, m, h.heapFree);
    LinkEndsNull(s, m, h.heapFree);
    assert FreeOf(s.tiles) == [] && LastAddr(s) == 0;
    assert Needed(0xFFFF_F000) == 0xFFFF_F008 && Growth(0xFFFF_F008) == 0 && Behind(0xFFFF_F000) == 0xFF8;
    answer := h.Malloc(0xFFFF_F000, [], false);
    assert Load(h.mem, h.heapTop - 0xFF8) == Mark(0xFF8);
  }
}
