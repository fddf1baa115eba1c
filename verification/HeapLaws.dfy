/**
 What a caller may count on: when malloc hands out a block and which, what free takes away, and
 that these live blocks and the range of the heap leave no other choice for the free ones.
 */
module HeapLaws {
  import opened Sizes
  import opened HeapTiling

  ghost function LiveTiles(s: State): set<Tile> { set t | t in s.tiles && t.live }

  // ---------------------------------------------------------------- sizes

  /** A block is the least multiple of 8 that holds the request and its header, 16 bytes at least. */
  lemma NeededIsLeast(size: nat)
    requires size < WORD
    ensures size <= 0xFFFF_FFF0 ==> Needed(size) == 16 || size + 8 <= Needed(size) < size + 16
    ensures size <= 8 || size > 0xFFFF_FFF0 <==> Needed(size) == 16
    ensures Needed(size) % 8 == 0
  {
  }

  /** Growth is the least number of pages that holds the block, or nothing for the last page of sizes. */
  lemma GrowthIsLeast(needed: nat)
    requires 0 < needed < WORD
    ensures if needed <= 0xFFFF_F000 then needed <= Growth(needed) < needed + 4096 else Growth(needed) == 0
    ensures Growth(needed) % 4096 == 0
  {
  }

  // ---------------------------------------------------------------- malloc

  ghost predicate SomeFits(s: State, needed: nat) { exists t :: t in s.tiles && !t.live && t.size >= needed }

  /** The block b is new in r, and every other live block stays as it is. */
  ghost predicate Gains(s: State, r: State, b: Tile)
  {
    b.live && b !in LiveTiles(s) && LiveTiles(r) == LiveTiles(s) + {b} && r.base == s.base
  }

  lemma CarveGains(s: State, k: nat, needed: nat)
    requires WellFormed(s) && k < |s.tiles| && !s.tiles[k].live && needed <= s.tiles[k].size
    ensures var c := Carve(s.tiles[k], needed);
      Gains(s, s.(tiles := s.tiles[..k] + c + s.tiles[k + 1..]), c[0])
  {
    var c := Carve(s.tiles[k], needed);
    var tiles := s.tiles[..k] + c + s.tiles[k + 1..];
    assert s.tiles == s.tiles[..k] + [s.tiles[k]] + s.tiles[k + 1..];
    assert forall t :: t in tiles <==> t in s.tiles[..k] || t in c || t in s.tiles[k + 1..];
    if c[0] in s.tiles {
      var i :| 0 <= i < |s.tiles| && s.tiles[i] == c[0];
      if i < k { TilesOrdered(s, i, k); }
      if k < i { TilesOrdered(s, k, i); }
    }
  }

  lemma GrowGains(s: State, needed: nat, grow: nat)
    requires WellFormed(s) && MIN_BLOCK <= needed <= grow
    ensures var c := Carve(Tile(s.top, grow, false), needed);
      Gains(s, State(s.tiles + c, s.base, s.top + grow), c[0])
  {
    var c := Carve(Tile(s.top, grow, false), needed);
    if c[0] in s.tiles {
      var i :| 0 <= i < |s.tiles| && s.tiles[i] == c[0];
      TilesInRange(s, i);
    }
  }

  /** malloc handed out block b for a request of so many bytes with its header. */
  ghost predicate HandedOut(h: Heap, r: Heap, a: Answer, needed: nat, b: Tile)
  {
    a == Returned(b.addr + 8) && needed <= b.size < needed + 16 && Gains(h.tiling, r.tiling, b)
  }

  /** A free block that is large enough is taken, the lowest of them. */
  ghost predicate TookLowestFit(h: Heap, r: Heap, a: Answer, needed: nat)
  {
    && r.tiling.top == h.tiling.top && r.spare == h.spare && (exists b :: HandedOut(h, r, a, needed, b))
    && (exists t :: t in h.tiling.tiles && !t.live && t.size >= needed && a == Returned(t.addr + 8))
    && forall t :: t in h.tiling.tiles && !t.live && t.size >= needed ==> a.ptr <= t.addr + 8
  }

  /** The heap has grown by so many bytes, and the block lies at the old top. */
  ghost predicate TookGrowth(h: Heap, r: Heap, a: Answer, needed: nat, grow: nat)
  {
    && a == Returned(h.tiling.top + 8) && (exists b :: HandedOut(h, r, a, needed, b))
    && r.tiling.top == h.tiling.top + grow
    && r.spare == if h.spare * 4096 <= grow then 0 else h.spare - grow / 4096
  }

  /** No block has changed, and the pages that could be had stay mapped beyond the top. */
  ghost predicate TookNothing(h: Heap, r: Heap, u: Supply)
  {
    r.tiling == h.tiling && r.spare == if h.spare < u.pages then u.pages else h.spare
  }

  lemma {:induction false} FitHandsOut(h: Heap, size: nat, u: Supply)
    requires WellFormed(h.tiling) && MallocAllowed(h, size, u) && size > 0 && !Wrapped(size)
    requires Fit(h.tiling.tiles, Needed(size)) < |h.tiling.tiles|
    ensures SomeFits(h.tiling, Needed(size))
    ensures TookLowestFit(h, Malloc(h, size, u).0, Malloc(h, size, u).1, Needed(size))
  {
    SizeArithmetic(size);
    var k := Fit(h.tiling.tiles, Needed(size));
    FitIsLowest(h.tiling, Needed(size));
    CarveGains(h.tiling, k, Needed(size));
    var (r, a) := Malloc(h, size, u);
    assert HandedOut(h, r, a, Needed(size), Carve(h.tiling.tiles[k], Needed(size))[0]);
  }

  lemma {:induction false} GrowthHandsOut(h: Heap, size: nat, u: Supply)
    requires WellFormed(h.tiling) && MallocAllowed(h, size, u) && size > 0 && !Wrapped(size)
    requires Fit(h.tiling.tiles, Needed(size)) == |h.tiling.tiles| && u.pages * 4096 >= Growth(Needed(size))
    ensures TookGrowth(h, Malloc(h, size, u).0, Malloc(h, size, u).1, Needed(size), Growth(Needed(size)))
  {
    SizeArithmetic(size);
    GrowGains(h.tiling, Needed(size), Growth(Needed(size)));
    var (r, a) := Malloc(h, size, u);
    assert HandedOut(h, r, a, Needed(size), Carve(Tile(h.tiling.top, Growth(Needed(size)), false), Needed(size))[0]);
  }

  /**
   malloc(0) is null. For other sizes whose growth does not wrap, malloc hands out a block exactly when a free block
   is large enough, which is then the lowest such, or the pages for growth can be had, and then it lies at the old top.
   Otherwise no block changes, and the answer is null unless all that is missing is a table for the last page.
   */
  lemma {:induction false} MallocHandsOutIff(h: Heap, size: nat, u: Supply)
    requires WellFormed(h.tiling) && MallocAllowed(h, size, u) && !Wrapped(size)
    ensures size == 0 ==> Malloc(h, size, u) == (h, Returned(0))
    ensures size > 0 ==>
      var (r, a) := Malloc(h, size, u);
      var needed, grow := Needed(size), Growth(Needed(size));
      && (Succeeds(a) <==> SomeFits(h.tiling, needed) || u.pages * 4096 >= grow)
      && (SomeFits(h.tiling, needed) ==> TookLowestFit(h, r, a, needed))
      && (!SomeFits(h.tiling, needed) && Succeeds(a) ==> TookGrowth(h, r, a, needed, grow))
      && (!Succeeds(a) ==>
           TookNothing(h, r, u) && (a == Returned(0) <==> !(u.loose && grow == (u.pages + 1) * 4096)))
  {
    if size > 0 {
      if Fit(h.tiling.tiles, Needed(size)) < |h.tiling.tiles| {
        FitHandsOut(h, size, u);
      } else {
        NothingFits(h.tiling, Needed(size));
        if u.pages * 4096 >= Growth(Needed(size)) { GrowthHandsOut(h, size, u); }
      }
    }
  }

  /** A header of 8 bytes that malloc writes at this address lies on the page that has a frame and no table. */
  ghost predicate OnMissingPage(h: Heap, u: Supply, a: nat) { h.tiling.top + u.pages * 4096 <= a }

  /**
   malloc stops the kernel exactly when a header it writes has no memory behind it: at the top or behind the new
   block when a table is short, at the top or below the heap when growth wraps to nothing.
   */
  lemma {:induction false} MallocFaultsIff(h: Heap, size: nat, u: Supply)
    requires WellFormed(h.tiling) && MallocAllowed(h, size, u) && size > 0
    ensures var needed, grow, top := Needed(size), Growth(Needed(size)), h.tiling.top;
      Malloc(h, size, u).1 == Fault <==>
        if Wrapped(size)
        then h.spare == 0 || (needed <= 0xFFFF_FFF0 && top + needed < 0x1_D000_0000)
        else
          && !SomeFits(h.tiling, needed) && u.loose && grow == (u.pages + 1) * 4096
          && (OnMissingPage(h, u, top) || (grow - needed >= 16 && OnMissingPage(h, u, top + needed)))
  {
    SizeArithmetic(size);
    if !Wrapped(size) { MallocHandsOutIff(h, size, u); }
  }

  lemma FitIsLowest(s: State, needed: nat)
    requires WellFormed(s) && Fit(s.tiles, needed) < |s.tiles|
    ensures SomeFits(s, needed)
    ensures forall t :: t in s.tiles && !t.live && t.size >= needed ==> s.tiles[Fit(s.tiles, needed)].addr <= t.addr
  {
    var k := Fit(s.tiles, needed);
    assert s.tiles[k] in s.tiles;
    forall t | t in s.tiles && !t.live && t.size >= needed ensures s.tiles[k].addr <= t.addr {
      var i :| 0 <= i < |s.tiles| && s.tiles[i] == t;
      if k < i { TilesOrdered(s, k, i); }
    }
  }

  lemma NothingFits(s: State, needed: nat)
    requires Fit(s.tiles, needed) == |s.tiles|
    ensures !SomeFits(s, needed)
  {
  }

  // ---------------------------------------------------------------- free

  /** free takes away the block behind the pointer, and no other. */
  lemma {:induction false} FreeTakesAway(s: State, ptr: nat)
    requires WellFormed(s) && LivePointer(s, ptr)
    ensures var r := Free(s, ptr);
      && WellFormed(r) && r.base == s.base && r.top == s.top
      && exists t :: t in s.tiles && t.live && t.addr + 8 == ptr && LiveTiles(r) == LiveTiles(s) - {t}
  {
    var k := Find(s.tiles, ptr);
    FreePreserves(s, k);
    OthersStayLive(s, k);
    assert s.tiles[k] in s.tiles && LiveTiles(Free(s, ptr)) == LiveTiles(s) - {s.tiles[k]};
  }

  /** Of tiles lo to hi only tile k is live, and it occurs nowhere else. */
  lemma OnlyLiveBetween(s: State, k: nat, t: Tile)
    requires WellFormed(s) && k < |s.tiles| && s.tiles[k].live && t.live
    ensures var lo, hi := MergeLow(s.tiles, k), MergeHigh(s.tiles, k);
      t in s.tiles[..lo] || t in s.tiles[hi + 1..] <==> t in s.tiles && t != s.tiles[k]
  {
    var lo, hi := MergeLow(s.tiles, k), MergeHigh(s.tiles, k);
    if t in s.tiles[..lo] {
      var i :| 0 <= i < lo && s.tiles[i] == t;
      TilesOrdered(s, i, k);
    }
    if t in s.tiles[hi + 1..] {
      var i :| hi + 1 <= i < |s.tiles| && s.tiles[i] == t;
      TilesOrdered(s, k, i);
    }
    if t in s.tiles && t != s.tiles[k] {
      var i :| 0 <= i < |s.tiles| && s.tiles[i] == t;
      assert i < lo ==> s.tiles[..lo][i] == t;
      assert i > hi ==> s.tiles[hi + 1..][i - hi - 1] == t;
    }
  }

  lemma OthersStayLive(s: State, k: nat)
    requires WellFormed(s) && k < |s.tiles| && s.tiles[k].live
    ensures LiveTiles(s.(tiles := FreeTile(s.tiles, k))) == LiveTiles(s) - {s.tiles[k]}
  {
    forall t: Tile | t.live ensures t in FreeTile(s.tiles, k) <==> t in s.tiles && t != s.tiles[k] {
      OnlyLiveBetween(s, k, t);
      FreedTiles(s.tiles, k, t);
    }
  }

  lemma FreedTiles(tiles: seq<Tile>, k: nat, t: Tile)
    requires k < |tiles| && t.live
    ensures t in FreeTile(tiles, k) <==> t in tiles[..MergeLow(tiles, k)] || t in tiles[MergeHigh(tiles, k) + 1..]
  {
  }

  // ---------------------------------------------------------------- nothing else is left open

  /** The heap from its second tile on. */
  ghost function Tail(s: State): State
    requires s.tiles != []
  {
    State(s.tiles[1..], s.tiles[0].End(), s.top)
  }

  lemma TailIsWellFormed(s: State)
    requires WellFormed(s) && s.tiles != []
    ensures WellFormed(Tail(s)) && s.base < s.tiles[0].End() <= s.top
  {
    var t := Tail(s);
    assert Sized(s.tiles[0]);
    TilesInRange(s, 0);
    if |s.tiles| > 1 { assert Joined(s.tiles, 0); }
    forall i | 0 <= i < |t.tiles| - 1 ensures Joined(t.tiles, i) { assert Joined(s.tiles, i + 1); }
    forall i | 0 <= i < |t.tiles| ensures Sized(t.tiles[i]) { assert Sized(s.tiles[i + 1]); }
    EndOfFirst(s.tiles[0]);
  }

  lemma EndOfFirst(t: Tile)
    requires Sized(t)
    ensures t.End() % HEAP_ALIGN == 0
  {
    assert t.End() == 8 * (t.addr / 8 + t.size / 8);
  }

  /** The first tile is live in both heaps, or its end is the same in both. */
  lemma FirstTileReaches(s: State, r: State)
    requires WellFormed(s) && WellFormed(r) && s.base == r.base && s.top == r.top && LiveTiles(s) == LiveTiles(r)
    requires s.tiles != [] && r.tiles != []
    ensures s.tiles[0].live ==> r.tiles[0] == s.tiles[0]
    ensures !s.tiles[0].live && !r.tiles[0].live ==> r.tiles[0].End() <= s.tiles[0].End()
  {
    assert Sized(s.tiles[0]) && Sized(r.tiles[0]);
    if s.tiles[0].live {
      assert s.tiles[0] in LiveTiles(s);
      IndexOfTile(r, s.tiles[0], 0);
    } else if !r.tiles[0].live && s.tiles[0].End() < r.tiles[0].End() {
      TilesInRange(r, 0);
      assert |s.tiles| > 1;
      assert Joined(s.tiles, 0) && Sized(s.tiles[1]) && s.tiles[1] in LiveTiles(s);
      IndexOfTile(r, s.tiles[1], 0);
    }
  }

  /** A tile of the heap that has an address in common with tile k is tile k. */
  lemma IndexOfTile(s: State, t: Tile, k: nat)
    requires WellFormed(s) && t in s.tiles && k < |s.tiles|
    ensures t.addr < s.tiles[k].End() && s.tiles[k].addr < t.End() ==> t == s.tiles[k]
  {
    var i :| 0 <= i < |s.tiles| && s.tiles[i] == t;
    if i < k { TilesOrdered(s, i, k); }
    if k < i { TilesOrdered(s, k, i); }
  }

  lemma TailLives(s: State, r: State)
    requires WellFormed(s) && WellFormed(r) && LiveTiles(s) == LiveTiles(r)
    requires s.tiles != [] && r.tiles != [] && s.tiles[0] == r.tiles[0]
    ensures LiveTiles(Tail(s)) == LiveTiles(Tail(r))
  {
    TailHas(s);
    TailHas(r);
  }

  lemma TailHas(s: State)
    requires WellFormed(s) && s.tiles != []
    ensures LiveTiles(Tail(s)) == LiveTiles(s) - {s.tiles[0]}
  {
    assert s.tiles == [s.tiles[0]] + s.tiles[1..];
    if s.tiles[0] in s.tiles[1..] {
      var i :| 1 <= i < |s.tiles| && s.tiles[i] == s.tiles[0];
      TilesOrdered(s, 0, i);
    }
  }

  /** The range and the live blocks determine the whole heap, free blocks and all. */
  lemma {:induction false} LiveTilesDetermine(s: State, r: State)
    requires WellFormed(s) && WellFormed(r) && s.base == r.base && s.top == r.top && LiveTiles(s) == LiveTiles(r)
    ensures s == r
    decreases |s.tiles|
  {
    if s.tiles != [] && r.tiles != [] {
      TailIsWellFormed(s);
      TailIsWellFormed(r);
      FirstTileReaches(s, r);
      FirstTileReaches(r, s);
      TailLives(s, r);
      LiveTilesDetermine(Tail(s), Tail(r));
      assert s.tiles == [s.tiles[0]] + Tail(s).tiles && r.tiles == [r.tiles[0]] + Tail(r).tiles;
    } else {
      if s.tiles != [] { TailIsWellFormed(s); }
      if r.tiles != [] { TailIsWellFormed(r); }
    }
  }
}
