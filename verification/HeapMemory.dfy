/**
 How the tiling is represented inside memory: a size word at the head of every block, a next
 word behind it in free blocks, and a null-terminated list of the free blocks in address order.
 The lemmas say what a write may touch, and that carving, growing and merging are represented
 by the few words malloc and free rewrite.
 */
module HeapMemory {
  import opened Sizes
  import opened HeapTiling

  // ---------------------------------------------------------------- words in memory

  /** The word at a byte address; the word at offset k of the heap is held in cell k. */
  function Load(mem: seq<nat>, a: nat): nat
    requires HEAP_START <= a < HEAP_START + |mem|
  {
    mem[a - HEAP_START]
  }

  function Store(mem: seq<nat>, a: nat, w: nat): (r: seq<nat>)
    requires HEAP_START <= a < HEAP_START + |mem|
    ensures |r| == |mem|
  {
    mem[a - HEAP_START := w]
  }

  /** size & ~1: the block size without its mark. */
  function Unmark(w: nat): nat { w - w % 2 }

  /** size | 1: the block size with its mark. */
  function Mark(w: nat): nat { Unmark(w) + 1 }

  ghost predicate InMemory(mem: seq<nat>, t: Tile)
  {
    HEAP_START <= t.addr && t.size >= MIN_BLOCK && t.End() <= HEAP_START + |mem|
  }

  ghost predicate HeaderOk(mem: seq<nat>, t: Tile)
  {
    InMemory(mem, t) && Unmark(Load(mem, t.addr)) == t.size
  }

  ghost predicate Headers(mem: seq<nat>, tiles: seq<Tile>)
  {
    forall i :: 0 <= i < |tiles| ==> HeaderOk(mem, tiles[i])
  }

  ghost predicate SameIn(t: Tile, mem: seq<nat>, mem': seq<nat>)
    requires InMemory(mem, t) && InMemory(mem', t)
  {
    forall a :: t.Contains(a) ==> Load(mem', a) == Load(mem, a)
  }

  // ---------------------------------------------------------------- the linked list

  /** Address of the i-th listed block, null past the end. */
  ghost function AddrAt(free: seq<Tile>, i: nat): nat { if i < |free| then free[i].addr else 0 }

  ghost predicate NextOk(mem: seq<nat>, free: seq<Tile>, i: nat)
    requires i < |free|
  {
    InMemory(mem, free[i]) && Load(mem, free[i].addr + 4) == AddrAt(free, i + 1)
  }

  /** Following next pointers from head visits exactly the given blocks, in order. */
  ghost predicate Linked(mem: seq<nat>, head: nat, free: seq<Tile>)
  {
    && head == AddrAt(free, 0)
    && forall i :: 0 <= i < |free| ==> NextOk(mem, free, i)
  }

  ghost predicate Ordered(free: seq<Tile>)
  {
    forall i, j :: 0 <= i < j < |free| ==> free[i].End() <= free[j].addr
  }

  lemma {:induction false} FreeOfConcat(a: seq<Tile>, b: seq<Tile>)
    ensures FreeOf(a + b) == FreeOf(a) + FreeOf(b)
  {
    if a == [] {
      assert a + b == b;
    } else {
      assert (a + b)[1..] == a[1..] + b;
      FreeOfConcat(a[1..], b);
    }
  }

  /** The tile index of the i-th free block, with the list split around it. */
  lemma {:induction false} FreeIndex(tiles: seq<Tile>, i: nat) returns (k: nat)
    requires i < |FreeOf(tiles)|
    ensures k < |tiles| && tiles[k] == FreeOf(tiles)[i] && !tiles[k].live
    ensures FreeOf(tiles[..k]) == FreeOf(tiles)[..i]
    ensures FreeOf(tiles[k + 1..]) == FreeOf(tiles)[i + 1..]
  {
    if tiles[0].live {
      k := FreeIndex(tiles[1..], i);
      assert tiles[..k + 1][1..] == tiles[1..][..k];
      assert tiles[1..][k + 1..] == tiles[k + 2..];
      k := k + 1;
    } else if i == 0 {
      k := 0;
    } else {
      k := FreeIndex(tiles[1..], i - 1);
      assert tiles[..k + 1][1..] == tiles[1..][..k];
      assert tiles[1..][k + 1..] == tiles[k + 2..];
      k := k + 1;
    }
  }

  /** The free list is strictly address-ordered. */
  lemma FreeOfOrdered(s: State)
    requires WellFormed(s)
    ensures Ordered(FreeOf(s.tiles))
    ensures forall t :: t in FreeOf(s.tiles) ==> t in s.tiles && !t.live
  {
    var free := FreeOf(s.tiles);
    forall i, j | 0 <= i < j < |free| ensures free[i].End() <= free[j].addr {
      var k := FreeIndex(s.tiles, j);
      var h := FreeIndex(s.tiles[..k], i);
      TilesOrdered(s, h, k);
    }
    forall t | t in free ensures t in s.tiles && !t.live {
      var i :| 0 <= i < |free| && free[i] == t;
      var k := FreeIndex(s.tiles, i);
    }
  }

  ghost predicate SameNext(t: Tile, mem: seq<nat>, mem': seq<nat>)
  {
    InMemory(mem, t) && InMemory(mem', t) && Load(mem', t.addr + 4) == Load(mem, t.addr + 4)
  }

  /** Replacing the listed blocks i..hi by at most one block, given the two links around it. */
  lemma Splice(mem: seq<nat>, head: nat, free: seq<Tile>, i: nat, hi: nat, mid: seq<Tile>, mem': seq<nat>, head': nat)
    requires Linked(mem, head, free) && i <= hi <= |free| && |mid| <= 1
    requires forall j :: 0 <= j < i - 1 || hi <= j < |free| ==> SameNext(free[j], mem, mem')
    requires i > 0 ==> InMemory(mem', free[i - 1])
    requires (if i == 0 then head' else Load(mem', free[i - 1].addr + 4)) ==
      if mid == [] then AddrAt(free, hi) else mid[0].addr
    requires i > 0 ==> head' == head
    requires mid != [] ==> InMemory(mem', mid[0]) && Load(mem', mid[0].addr + 4) == AddrAt(free, hi)
    ensures Linked(mem', head', free[..i] + mid + free[hi..])
  {
    var r := free[..i] + mid + free[hi..];
    forall j | 0 <= j < |r| ensures NextOk(mem', r, j) {
      if j < i {
        assert NextOk(mem, free, j);
        assert r[j] == free[j];
      } else if j >= i + |mid| {
        var d := j - i - |mid| + hi;
        assert r[j] == free[d];
        assert NextOk(mem, free, d);
      }
    }
  }

  // ---------------------------------------------------------------- what a write can touch

  /** mem' differs from mem at most at the addresses in written. */
  ghost predicate Frame(mem: seq<nat>, mem': seq<nat>, written: set<nat>)
  {
    && |mem| <= |mem'|
    && forall a :: HEAP_START <= a < HEAP_START + |mem| && a !in written ==> Load(mem', a) == Load(mem, a)
  }

  ghost predicate Represents(s: State, mem: seq<nat>, head: nat)
  {
    && WellFormed(s)
    && HEAP_START + |mem| == s.top
    && Headers(mem, s.tiles)
    && Linked(mem, head, FreeOf(s.tiles))
  }

  /** Tile t came through: its size, its contents if live, and its link unless it is prev. */
  ghost predicate Kept(t: Tile, prev: nat, mem: seq<nat>, mem': seq<nat>)
  {
    && HeaderOk(mem, t) && HeaderOk(mem', t)
    && (t.live ==> SameIn(t, mem, mem'))
    && (t.addr != prev ==> SameNext(t, mem, mem'))
  }

  ghost predicate Outside(t: Tile, from: nat, to: nat) { t.End() <= from || to <= t.addr }

  /** The writes of one operation: inside [from, to), and the next field of a block prev. */
  ghost predicate Touches(mem: seq<nat>, mem': seq<nat>, from: nat, to: nat, prev: nat, written: set<nat>)
  {
    && Frame(mem, mem', written)
    && forall a :: a in written ==> (prev != 0 && a == prev + 4) || from <= a < to
  }

  ghost predicate FreeBlockAt(s: State, prev: nat)
  {
    prev == 0 || exists p :: p in s.tiles && !p.live && p.addr == prev
  }

  /** Writes inside [from, to), or to the next field of a free block, spare every tile outside. */
  lemma OtherTileKept(s: State, mem: seq<nat>, mem': seq<nat>, from: nat, to: nat, prev: nat, written: set<nat>,
                      t: Tile)
    requires Represents(s, mem, AddrAt(FreeOf(s.tiles), 0)) && FreeBlockAt(s, prev)
    requires Touches(mem, mem', from, to, prev, written)
    requires t in s.tiles && Outside(t, from, to)
    ensures Kept(t, prev, mem, mem')
  {
    var j :| 0 <= j < |s.tiles| && s.tiles[j] == t;
    assert HeaderOk(mem, s.tiles[j]);
    if prev != 0 {
      var p :| p in s.tiles && !p.live && p.addr == prev;
      var h :| 0 <= h < |s.tiles| && s.tiles[h] == p;
      if h < j { TilesOrdered(s, h, j); }
      if j < h { TilesOrdered(s, j, h); }
    }
  }

  lemma OtherTilesKept(s: State, mem: seq<nat>, mem': seq<nat>, from: nat, to: nat, prev: nat, written: set<nat>)
    requires Represents(s, mem, AddrAt(FreeOf(s.tiles), 0)) && FreeBlockAt(s, prev)
    requires Touches(mem, mem', from, to, prev, written)
    ensures forall t :: t in s.tiles && Outside(t, from, to) ==> Kept(t, prev, mem, mem')
  {
    forall t | t in s.tiles && Outside(t, from, to) ensures Kept(t, prev, mem, mem') {
      OtherTileKept(s, mem, mem', from, to, prev, written, t);
    }
  }

  ghost function Carved(s: State, k: nat, needed: nat): State
    requires k < |s.tiles| && needed <= s.tiles[k].size
  {
    s.(tiles := s.tiles[..k] + Carve(s.tiles[k], needed) + s.tiles[k + 1..])
  }

  /** The i-th listed block is tile k, and the list is split around it. */
  ghost predicate ListedAt(s: State, i: nat, k: nat)
  {
    var free := FreeOf(s.tiles);
    && i < |free| && k < |s.tiles| && s.tiles[k] == free[i] && !s.tiles[k].live
    && FreeOf(s.tiles[..k]) == free[..i] && FreeOf(s.tiles[k + 1..]) == free[i + 1..]
  }

  ghost function PrevAddr(free: seq<Tile>, i: nat): nat
    requires i <= |free|
  {
    if i == 0 then 0 else free[i - 1].addr
  }

  /** The headers and links malloc has to leave behind when it takes listed block i. */
  ghost predicate CarveWritten(free: seq<Tile>, i: nat, needed: nat, mem': seq<nat>, head: nat, head': nat)
    requires i < |free| && MIN_BLOCK <= needed <= free[i].size
  {
    var c := Carve(free[i], needed);
    && (forall j :: 0 <= j < |c| ==> HeaderOk(mem', c[j]))
    && (|c| > 1 ==> Load(mem', c[1].addr + 4) == AddrAt(free, i + 1))
    && (i > 0 ==> head' == head && InMemory(mem', free[i - 1]))
    && (if i == 0 then head' else Load(mem', free[i - 1].addr + 4)) ==
      (if |c| > 1 then c[1].addr else AddrAt(free, i + 1))
  }

  lemma CarvedFreeList(s: State, i: nat, k: nat, needed: nat)
    requires ListedAt(s, i, k) && needed <= s.tiles[k].size
    ensures var free := FreeOf(s.tiles);
      FreeOf(Carved(s, k, needed).tiles) == free[..i] + Carve(s.tiles[k], needed)[1..] + free[i + 1..]
  {
    var c := Carve(s.tiles[k], needed);
    FreeOfConcat(s.tiles[..k] + c, s.tiles[k + 1..]);
    FreeOfConcat(s.tiles[..k], c);
    FreeOfCarve(s.tiles[k], needed);
  }

  lemma PrevIsListed(s: State, mem: seq<nat>, head: nat, i: nat)
    requires Represents(s, mem, head) && i <= |FreeOf(s.tiles)|
    ensures FreeBlockAt(s, PrevAddr(FreeOf(s.tiles), i))
  {
    FreeOfOrdered(s);
    if i > 0 {
      assert FreeOf(s.tiles)[i - 1] in s.tiles;
    }
  }

  lemma ListedBlocksApart(s: State, i: nat, j: nat)
    requires WellFormed(s) && i < j < |FreeOf(s.tiles)|
    ensures FreeOf(s.tiles)[i].addr < FreeOf(s.tiles)[i].End() <= FreeOf(s.tiles)[j].addr
  {
    FreeOfOrdered(s);
    var t := FreeOf(s.tiles)[i];
    var h :| 0 <= h < |s.tiles| && s.tiles[h] == t;
    assert Sized(s.tiles[h]);
  }

  /** Listed blocks before index i - 1, or from index hi on, keep their links. */
  lemma ListedBlocksKept(s: State, mem: seq<nat>, mem': seq<nat>, from: nat, to: nat, i: nat, hi: nat)
    requires WellFormed(s) && i <= hi <= |FreeOf(s.tiles)|
    requires forall t :: t in s.tiles && Outside(t, from, to) ==> Kept(t, PrevAddr(FreeOf(s.tiles), i), mem, mem')
    requires forall j :: 0 <= j < i || hi <= j < |FreeOf(s.tiles)| ==> Outside(FreeOf(s.tiles)[j], from, to)
    ensures forall j :: 0 <= j < i - 1 || hi <= j < |FreeOf(s.tiles)| ==> SameNext(FreeOf(s.tiles)[j], mem, mem')
  {
    var free := FreeOf(s.tiles);
    FreeOfOrdered(s);
    forall j | 0 <= j < i - 1 || hi <= j < |free| ensures SameNext(free[j], mem, mem') {
      assert free[j] in s.tiles;
      if j < i - 1 { ListedBlocksApart(s, j, i - 1); }
      else if i > 0 { ListedBlocksApart(s, i - 1, j); }
      else { InHeap(s, free[j]); }
    }
  }

  lemma InHeap(s: State, t: Tile)
    requires WellFormed(s) && t in s.tiles
    ensures HEAP_START <= t.addr && t.addr + MIN_BLOCK <= t.End() <= s.top
  {
    var h :| 0 <= h < |s.tiles| && s.tiles[h] == t;
    TilesInRange(s, h);
    assert Sized(s.tiles[h]);
  }

  lemma {:induction false} OthersOutsideListed(s: State, i: nat)
    requires WellFormed(s) && i < |FreeOf(s.tiles)|
    ensures var free := FreeOf(s.tiles);
      forall j :: 0 <= j < i || i + 1 <= j < |free| ==> Outside(free[j], free[i].addr, free[i].End())
  {
    var free := FreeOf(s.tiles);
    forall j | 0 <= j < i || i + 1 <= j < |free| ensures Outside(free[j], free[i].addr, free[i].End()) {
      if j < i { ListedBlocksApart(s, j, i); } else { ListedBlocksApart(s, i, j); }
    }
  }

  /** The links around a carved block, once the other listed blocks are seen to keep theirs. */
  lemma SpliceCarved(mem: seq<nat>, head: nat, free: seq<Tile>, i: nat, needed: nat, mem': seq<nat>, head': nat,
                     list: seq<Tile>)
    requires Linked(mem, head, free) && i < |free| && MIN_BLOCK <= needed <= free[i].size
    requires CarveWritten(free, i, needed, mem', head, head')
    requires forall j :: 0 <= j < i - 1 || i + 1 <= j < |free| ==> SameNext(free[j], mem, mem')
    requires list == free[..i] + Carve(free[i], needed)[1..] + free[i + 1..]
    ensures Linked(mem', head', list)
  {
    Splice(mem, head, free, i, i + 1, Carve(free[i], needed)[1..], mem', head');
  }

  lemma {:induction false} CarveLinks(s: State, mem: seq<nat>, head: nat, i: nat, k: nat, needed: nat, mem': seq<nat>,
                                      head': nat)
    requires Represents(s, mem, head) && ListedAt(s, i, k) && MIN_BLOCK <= needed <= s.tiles[k].size
    requires forall t :: t in s.tiles && Outside(t, s.tiles[k].addr, s.tiles[k].End()) ==>
      Kept(t, PrevAddr(FreeOf(s.tiles), i), mem, mem')
    requires CarveWritten(FreeOf(s.tiles), i, needed, mem', head, head')
    ensures Linked(mem', head', FreeOf(Carved(s, k, needed).tiles))
  {
    var t := s.tiles[k];
    OthersOutsideListed(s, i);
    ListedBlocksKept(s, mem, mem', t.addr, t.End(), i, i + 1);
    CarvedFreeList(s, i, k, needed);
    SpliceCarved(mem, head, FreeOf(s.tiles), i, needed, mem', head', FreeOf(Carved(s, k, needed).tiles));
  }

  lemma TilesOutside(s: State, lo: nat, hi: nat)
    requires WellFormed(s) && lo <= hi < |s.tiles|
    ensures forall j :: 0 <= j < lo || hi < j < |s.tiles| ==> Outside(s.tiles[j], s.tiles[lo].addr, s.tiles[hi].End())
  {
    forall j | 0 <= j < lo || hi < j < |s.tiles| ensures Outside(s.tiles[j], s.tiles[lo].addr, s.tiles[hi].End()) {
      if j < lo { TilesOrdered(s, j, lo); } else { TilesOrdered(s, hi, j); }
    }
  }

  lemma HeadersSplice(tiles: seq<Tile>, lo: nat, hi: nat, mid: seq<Tile>, mem: seq<nat>)
    requires lo <= hi <= |tiles|
    requires forall j :: 0 <= j < lo || hi <= j < |tiles| ==> HeaderOk(mem, tiles[j])
    requires forall j :: 0 <= j < |mid| ==> HeaderOk(mem, mid[j])
    ensures Headers(mem, tiles[..lo] + mid + tiles[hi..])
  {
    var r := tiles[..lo] + mid + tiles[hi..];
    forall j | 0 <= j < |r| ensures HeaderOk(mem, r[j]) {
      assert j < lo ==> r[j] == tiles[j];
      assert lo <= j < lo + |mid| ==> r[j] == mid[j - lo];
      assert j >= lo + |mid| ==> r[j] == tiles[j - lo - |mid| + hi];
    }
  }

  /** What keeps all tiles outside a free one keeps all live tiles, and the headers of the others. */
  lemma LiveTilesKept(s: State, k: nat, prev: nat, mem: seq<nat>, mem': seq<nat>)
    requires WellFormed(s) && k < |s.tiles| && !s.tiles[k].live && FreeBlockAt(s, prev)
    requires forall t :: t in s.tiles && Outside(t, s.tiles[k].addr, s.tiles[k].End()) ==> Kept(t, prev, mem, mem')
    ensures forall t :: t in s.tiles && t.live ==> Kept(t, 0, mem, mem')
    ensures forall j :: 0 <= j < |s.tiles| && j != k ==> HeaderOk(mem', s.tiles[j])
  {
    TilesOutside(s, k, k);
    forall j | 0 <= j < |s.tiles| && j != k ensures Kept(s.tiles[j], prev, mem, mem') {}
    forall t | t in s.tiles && t.live ensures Kept(t, 0, mem, mem') {
      var j :| 0 <= j < |s.tiles| && s.tiles[j] == t;
      LiveIsNotPrev(s, t, prev);
    }
  }

  lemma LiveIsNotPrev(s: State, t: Tile, prev: nat)
    requires WellFormed(s) && t in s.tiles && t.live && FreeBlockAt(s, prev)
    ensures t.addr != prev
  {
    InHeap(s, t);
    if prev != 0 {
      var p :| p in s.tiles && !p.live && p.addr == prev;
      var h :| 0 <= h < |s.tiles| && s.tiles[h] == p;
      var j :| 0 <= j < |s.tiles| && s.tiles[j] == t;
      if h < j { TilesOrdered(s, h, j); }
      if j < h { TilesOrdered(s, j, h); }
    }
  }

  /** Taking a listed block leaves memory representing the carved tiling, live blocks intact. */
  lemma CarveRepresents(s: State, mem: seq<nat>, head: nat, i: nat, k: nat, needed: nat, written: set<nat>,
                        mem': seq<nat>, head': nat)
    requires Represents(s, mem, head) && ListedAt(s, i, k)
    requires MIN_BLOCK <= needed <= s.tiles[k].size && needed % HEAP_ALIGN == 0
    requires |mem'| == |mem|
    requires Touches(mem, mem', s.tiles[k].addr, s.tiles[k].End(), PrevAddr(FreeOf(s.tiles), i), written)
    requires CarveWritten(FreeOf(s.tiles), i, needed, mem', head, head')
    ensures Represents(Carved(s, k, needed), mem', head')
    ensures forall t :: t in s.tiles && t.live ==> Kept(t, 0, mem, mem')
  {
    PrevIsListed(s, mem, head, i);
    OtherTilesKept(s, mem, mem', s.tiles[k].addr, s.tiles[k].End(), PrevAddr(FreeOf(s.tiles), i), written);
    LiveTilesKept(s, k, PrevAddr(FreeOf(s.tiles), i), mem, mem');
    CarveLinks(s, mem, head, i, k, needed, mem', head');
    HeadersSplice(s.tiles, k, k + 1, Carve(s.tiles[k], needed), mem');
    CarvePreserves(s, k, needed);
  }

  ghost function Grown(s: State, needed: nat, grow: nat): State
    requires needed <= grow
  {
    State(s.tiles + Carve(Tile(s.top, grow, false), needed), s.base, s.top + grow)
  }

  /** The headers and links malloc has to leave behind when it grows the heap. */
  ghost predicate GrowWritten(head: nat, free: seq<Tile>, c: seq<Tile>, mem': seq<nat>, head': nat)
    requires c != []
  {
    && (forall i :: 0 <= i < |c| ==> HeaderOk(mem', c[i]))
    && (|c| > 1 ==> Load(mem', c[1].addr + 4) == 0)
    && (free != [] ==> head' == head && InMemory(mem', free[|free| - 1]))
    && (if free == [] then head' else Load(mem', free[|free| - 1].addr + 4)) == AddrAt(c, 1)
  }

  lemma AppendLinks(head: nat, free: seq<Tile>, c: seq<Tile>, mem: seq<nat>, mem': seq<nat>, head': nat)
    requires 1 <= |c| <= 2 && Linked(mem, head, free) && GrowWritten(head, free, c, mem', head')
    requires forall j :: 0 <= j < |free| - 1 ==> SameNext(free[j], mem, mem')
    ensures Linked(mem', head', free + c[1..])
  {
    var n := |free|;
    Splice(mem, head, free, n, n, c[1..], mem', head');
    assert free[..n] + c[1..] + free[n..] == free + c[1..];
  }

  lemma GrownFreeList(s: State, needed: nat, grow: nat)
    requires needed <= grow
    ensures FreeOf(Grown(s, needed, grow).tiles) == FreeOf(s.tiles) + Carve(Tile(s.top, grow, false), needed)[1..]
  {
    FreeOfConcat(s.tiles, Carve(Tile(s.top, grow, false), needed));
    FreeOfCarve(Tile(s.top, grow, false), needed);
  }

  /** All tiles lie below the old top, so growth touches none but the last listed block's link. */
  lemma GrowKeepsTiles(s: State, mem: seq<nat>, head: nat, grow: nat, prev: nat, written: set<nat>, mem': seq<nat>)
    requires Represents(s, mem, head) && prev == PrevAddr(FreeOf(s.tiles), |FreeOf(s.tiles)|)
    requires Touches(mem, mem', s.top, s.top + grow, prev, written)
    ensures forall t :: t in s.tiles ==> Kept(t, prev, mem, mem') && t.addr > 0 && Outside(t, s.top, s.top + grow)
  {
    PrevIsListed(s, mem, head, |FreeOf(s.tiles)|);
    OtherTilesKept(s, mem, mem', s.top, s.top + grow, prev, written);
    forall t | t in s.tiles ensures Outside(t, s.top, s.top + grow) && t.addr > 0 { InHeap(s, t); }
  }

  lemma GrowKeepsLinks(s: State, mem: seq<nat>, mem': seq<nat>, grow: nat)
    requires WellFormed(s)
    requires forall t :: t in s.tiles ==>
      Kept(t, PrevAddr(FreeOf(s.tiles), |FreeOf(s.tiles)|), mem, mem') && Outside(t, s.top, s.top + grow)
    ensures forall j :: 0 <= j < |FreeOf(s.tiles)| - 1 ==> SameNext(FreeOf(s.tiles)[j], mem, mem')
  {
    FreeOfOrdered(s);
    ListedBlocksKept(s, mem, mem', s.top, s.top + grow, |FreeOf(s.tiles)|, |FreeOf(s.tiles)|);
  }

  lemma GrowKeeps(s: State, mem: seq<nat>, head: nat, grow: nat, written: set<nat>, mem': seq<nat>)
    requires Represents(s, mem, head)
    requires Touches(mem, mem', s.top, s.top + grow, PrevAddr(FreeOf(s.tiles), |FreeOf(s.tiles)|), written)
    ensures forall j :: 0 <= j < |s.tiles| ==> HeaderOk(mem', s.tiles[j])
    ensures forall t :: t in s.tiles && t.live ==> Kept(t, 0, mem, mem')
    ensures forall j :: 0 <= j < |FreeOf(s.tiles)| - 1 ==> SameNext(FreeOf(s.tiles)[j], mem, mem')
  {
    var prev := PrevAddr(FreeOf(s.tiles), |FreeOf(s.tiles)|);
    GrowKeepsTiles(s, mem, head, grow, prev, written, mem');
    GrowKeepsLinks(s, mem, mem', grow);
    PrevIsListed(s, mem, head, |FreeOf(s.tiles)|);
    forall t | t in s.tiles && t.live ensures Kept(t, 0, mem, mem') { LiveIsNotPrev(s, t, prev); }
    forall j | 0 <= j < |s.tiles| ensures HeaderOk(mem', s.tiles[j]) { assert s.tiles[j] in s.tiles; }
  }

  lemma GrownHeaders(s: State, mem: seq<nat>, head: nat, needed: nat, grow: nat, written: set<nat>, mem': seq<nat>,
                     head': nat)
    requires Represents(s, mem, head) && MIN_BLOCK <= needed <= grow
    requires Touches(mem, mem', s.top, s.top + grow, PrevAddr(FreeOf(s.tiles), |FreeOf(s.tiles)|), written)
    requires GrowWritten(head, FreeOf(s.tiles), Carve(Tile(s.top, grow, false), needed), mem', head')
    ensures Headers(mem', Grown(s, needed, grow).tiles)
    ensures forall t :: t in s.tiles && t.live ==> Kept(t, 0, mem, mem')
  {
    var c := Carve(Tile(s.top, grow, false), needed);
    GrowKeeps(s, mem, head, grow, written, mem');
    HeadersSplice(s.tiles, |s.tiles|, |s.tiles|, c, mem');
    assert s.tiles[..|s.tiles|] + c + s.tiles[|s.tiles|..] == s.tiles + c;
  }

  lemma GrownLinks(s: State, mem: seq<nat>, head: nat, needed: nat, grow: nat, written: set<nat>, mem': seq<nat>,
                   head': nat)
    requires Represents(s, mem, head) && MIN_BLOCK <= needed <= grow
    requires Touches(mem, mem', s.top, s.top + grow, PrevAddr(FreeOf(s.tiles), |FreeOf(s.tiles)|), written)
    requires GrowWritten(head, FreeOf(s.tiles), Carve(Tile(s.top, grow, false), needed), mem', head')
    ensures Linked(mem', head', FreeOf(Grown(s, needed, grow).tiles))
  {
    GrowKeeps(s, mem, head, grow, written, mem');
    AppendLinks(head, FreeOf(s.tiles), Carve(Tile(s.top, grow, false), needed), mem, mem', head');
    GrownFreeList(s, needed, grow);
  }

  /** Growing appends the carved page run; the last listed block is relinked, the rest is intact. */
  lemma GrowRepresents(s: State, mem: seq<nat>, head: nat, needed: nat, grow: nat, written: set<nat>, mem': seq<nat>,
                       head': nat)
    requires Represents(s, mem, head)
    requires MIN_BLOCK <= needed <= grow && needed % HEAP_ALIGN == 0 && grow % HEAP_ALIGN == 0
    requires s.top + grow <= WORD && |mem'| == |mem| + grow
    requires Touches(mem, mem', s.top, s.top + grow, PrevAddr(FreeOf(s.tiles), |FreeOf(s.tiles)|), written)
    requires GrowWritten(head, FreeOf(s.tiles), Carve(Tile(s.top, grow, false), needed), mem', head')
    ensures Represents(Grown(s, needed, grow), mem', head')
    ensures forall t :: t in s.tiles && t.live ==> Kept(t, 0, mem, mem')
  {
    GrownHeaders(s, mem, head, needed, grow, written, mem', head');
    GrownLinks(s, mem, head, needed, grow, written, mem', head');
    GrowPreserves(s, needed, grow);
  }

  lemma FreeOfCarve(t: Tile, needed: nat)
    requires needed <= t.size
    ensures FreeOf(Carve(t, needed)) == Carve(t, needed)[1..]
  {
    var c := Carve(t, needed);
    assert |c| == 2 ==> c[1..] == [c[1]] && FreeOf(c[1..]) == [c[1]] + FreeOf(c[1..][1..]) && c[1..][1..] == [];
  }

  // ---------------------------------------------------------------- free

  /** The list is split around live tile k: i free blocks lie before it. */
  ghost predicate SplitsAt(s: State, k: nat, i: nat)
  {
    var free := FreeOf(s.tiles);
    && k < |s.tiles| && s.tiles[k].live && i <= |free|
    && FreeOf(s.tiles[..k]) == free[..i] && FreeOf(s.tiles[k + 1..]) == free[i..]
  }

  lemma {:induction false} FreeOfSplit(tiles: seq<Tile>, k: nat)
    requires k < |tiles| && tiles[k].live
    ensures FreeOf(tiles) == FreeOf(tiles[..k]) + FreeOf(tiles[k + 1..])
  {
    assert tiles == tiles[..k] + tiles[k..];
    FreeOfConcat(tiles[..k], tiles[k..]);
    assert FreeOf(tiles[k..]) == FreeOf(tiles[k + 1..]) by {
      assert tiles[k..][0] == tiles[k] && tiles[k..][1..] == tiles[k + 1..];
    }
  }

  lemma FreeBelow(s: State, k: nat, j: nat)
    requires WellFormed(s) && k < |s.tiles| && j < |FreeOf(s.tiles[..k])|
    ensures FreeOf(s.tiles[..k])[j].addr < FreeOf(s.tiles[..k])[j].End() <= s.tiles[k].addr
  {
    var h := FreeIndex(s.tiles[..k], j);
    TilesOrdered(s, h, k);
  }

  lemma FreeAbove(s: State, k: nat, j: nat)
    requires WellFormed(s) && k < |s.tiles| && j < |FreeOf(s.tiles[k + 1..])|
    ensures s.tiles[k].addr < s.tiles[k].End() <= FreeOf(s.tiles[k + 1..])[j].addr
  {
    var h := FreeIndex(s.tiles[k + 1..], j);
    TilesOrdered(s, k, k + 1 + h);
  }

  /** The walk in free stops at the split point: earlier listed blocks lie below, later ones above. */
  lemma WalkFindsSplit(s: State, k: nat, i: nat)
    requires WellFormed(s) && k < |s.tiles| && s.tiles[k].live && i <= |FreeOf(s.tiles)|
    requires i > 0 ==> FreeOf(s.tiles)[i - 1].addr < s.tiles[k].addr
    requires i < |FreeOf(s.tiles)| ==> FreeOf(s.tiles)[i].addr >= s.tiles[k].addr
    ensures SplitsAt(s, k, i)
  {
    var before, after := FreeOf(s.tiles[..k]), FreeOf(s.tiles[k + 1..]);
    FreeOfSplit(s.tiles, k);
    if i < |before| { FreeBelow(s, k, i); }
    if i > |before| { FreeAbove(s, k, i - 1 - |before|); }
  }

  /** The code's test for a touching neighbour in the list is the test for a free neighbour tile. */
  lemma NeighbourTests(s: State, k: nat, i: nat)
    requires WellFormed(s) && SplitsAt(s, k, i)
    ensures var free, t := FreeOf(s.tiles), s.tiles[k];
      && ((i > 0 && free[i - 1].End() == t.addr) <==> (k > 0 && !s.tiles[k - 1].live))
      && ((i < |free| && t.End() == free[i].addr) <==> (k + 1 < |s.tiles| && !s.tiles[k + 1].live))
      && (k > 0 && !s.tiles[k - 1].live ==> free[i - 1] == s.tiles[k - 1])
      && (k + 1 < |s.tiles| && !s.tiles[k + 1].live ==> free[i] == s.tiles[k + 1])
  {
    LeftNeighbour(s, k, i);
    RightNeighbour(s, k, i);
  }

  lemma LeftNeighbour(s: State, k: nat, i: nat)
    requires WellFormed(s) && SplitsAt(s, k, i)
    ensures (i > 0 && FreeOf(s.tiles)[i - 1].End() == s.tiles[k].addr) <==> (k > 0 && !s.tiles[k - 1].live)
    ensures k > 0 && !s.tiles[k - 1].live ==> i > 0 && FreeOf(s.tiles)[i - 1] == s.tiles[k - 1]
  {
    var free := FreeOf(s.tiles);
    if k > 0 {
      assert s.tiles[..k] == s.tiles[..k - 1] + [s.tiles[k - 1]];
      FreeOfConcat(s.tiles[..k - 1], [s.tiles[k - 1]]);
      assert Joined(s.tiles, k - 1);
    }
    if i > 0 && free[i - 1].End() == s.tiles[k].addr {
      assert FreeOf(s.tiles[..k])[i - 1] == free[i - 1];
      var h := FreeIndex(s.tiles[..k], i - 1);
      assert Sized(s.tiles[k - 1]);
      if h < k - 1 { TilesOrdered(s, h, k - 1); }
    }
  }

  /** A free tile past the next one does not touch tile k. */
  lemma FartherIsApart(s: State, k: nat, h: nat)
    requires WellFormed(s) && k + 1 < h < |s.tiles|
    ensures s.tiles[k].End() < s.tiles[h].addr
  {
    assert Joined(s.tiles, k) && Sized(s.tiles[k + 1]);
    TilesOrdered(s, k + 1, h);
  }

  /** The first free tile past tile k touches it exactly when it is the next tile. */
  lemma {:induction false} FirstFreeAfter(s: State, k: nat)
    requires WellFormed(s) && k < |s.tiles|
    ensures var rest := FreeOf(s.tiles[k + 1..]);
      && ((rest != [] && s.tiles[k].End() == rest[0].addr) <==> (k + 1 < |s.tiles| && !s.tiles[k + 1].live))
      && (k + 1 < |s.tiles| && !s.tiles[k + 1].live ==> rest != [] && rest[0] == s.tiles[k + 1])
  {
    var rest := FreeOf(s.tiles[k + 1..]);
    if k + 1 < |s.tiles| { assert Joined(s.tiles, k); }
    if rest != [] {
      var h := FreeIndex(s.tiles[k + 1..], 0);
      if h > 0 { FartherIsApart(s, k, k + 1 + h); }
    }
  }

  lemma RightNeighbour(s: State, k: nat, i: nat)
    requires WellFormed(s) && SplitsAt(s, k, i)
    ensures (i < |FreeOf(s.tiles)| && s.tiles[k].End() == FreeOf(s.tiles)[i].addr) <==>
      (k + 1 < |s.tiles| && !s.tiles[k + 1].live)
    ensures k + 1 < |s.tiles| && !s.tiles[k + 1].live ==> i < |FreeOf(s.tiles)| && FreeOf(s.tiles)[i] == s.tiles[k + 1]
  {
    FirstFreeAfter(s, k);
    var free := FreeOf(s.tiles);
    assert free[i..] != [] <==> i < |free|;
    assert i < |free| ==> free[i..][0] == free[i];
  }

  ghost function MergeFrom(s: State, k: nat, i: nat): nat
    requires k < |s.tiles|
  {
    if MergeLow(s.tiles, k) < k && i > 0 then i - 1 else i
  }

  ghost function MergeTo(s: State, k: nat, i: nat): nat
    requires k < |s.tiles|
  {
    if MergeHigh(s.tiles, k) > k then i + 1 else i
  }

  ghost function Merged(s: State, k: nat): Tile
    requires k < |s.tiles|
  {
    Tile(s.tiles[MergeLow(s.tiles, k)].addr, MergedSize(s.tiles, k), false)
  }

  lemma FreeOfLast(tiles: seq<Tile>, k: nat)
    requires 0 < k <= |tiles| && !tiles[k - 1].live
    ensures FreeOf(tiles[..k]) == FreeOf(tiles[..k - 1]) + [tiles[k - 1]]
  {
    assert tiles[..k] == tiles[..k - 1] + [tiles[k - 1]];
    FreeOfConcat(tiles[..k - 1], [tiles[k - 1]]);
  }

  lemma FreeOfFirst(tiles: seq<Tile>, k: nat)
    requires k < |tiles| && !tiles[k].live
    ensures FreeOf(tiles[k..]) == [tiles[k]] + FreeOf(tiles[k + 1..])
  {
    assert tiles[k..][1..] == tiles[k + 1..];
  }

  lemma {:induction false} FreeOfAround(a: seq<Tile>, t: Tile, b: seq<Tile>)
    requires !t.live
    ensures FreeOf(a + [t] + b) == FreeOf(a) + [t] + FreeOf(b)
  {
    FreeOfConcat(a + [t], b);
    FreeOfConcat(a, [t]);
  }

  lemma {:induction false} MergedBefore(tiles: seq<Tile>, k: nat, free: seq<Tile>, i: nat)
    requires k < |tiles| && i <= |free| && FreeOf(tiles[..k]) == free[..i]
    ensures var from := if MergeLow(tiles, k) < k && i > 0 then i - 1 else i;
      from <= i && FreeOf(tiles[..MergeLow(tiles, k)]) == free[..from]
  {
    if MergeLow(tiles, k) < k {
      FreeOfLast(tiles, k);
      assert |free[..i]| == |FreeOf(tiles[..k - 1])| + 1;
      assert free[..i][..i - 1] == free[..i - 1];
    }
  }

  lemma {:induction false} MergedAfter(tiles: seq<Tile>, k: nat, free: seq<Tile>, i: nat)
    requires k < |tiles| && i <= |free| && FreeOf(tiles[k + 1..]) == free[i..]
    ensures var to := if MergeHigh(tiles, k) > k then i + 1 else i;
      to <= |free| && FreeOf(tiles[MergeHigh(tiles, k) + 1..]) == free[to..]
  {
    if MergeHigh(tiles, k) > k {
      FreeOfFirst(tiles, k + 1);
      assert |free[i..]| == |FreeOf(tiles[k + 2..])| + 1;
      assert free[i..][1..] == free[i + 1..];
    }
  }

  lemma {:induction false} FreeOfMerged(before: seq<Tile>, t: Tile, after: seq<Tile>, free: seq<Tile>, from: nat,
                                        to: nat, all: seq<Tile>)
    requires !t.live && from <= |free| && to <= |free| && FreeOf(before) == free[..from] && FreeOf(after) == free[to..]
    requires all == before + [t] + after
    ensures FreeOf(all) == free[..from] + [t] + free[to..]
  {
    FreeOfAround(before, t, after);
  }

  lemma {:induction false} MergedFreeList(s: State, k: nat, i: nat)
    requires WellFormed(s) && SplitsAt(s, k, i)
    ensures MergeFrom(s, k, i) <= MergeTo(s, k, i) <= |FreeOf(s.tiles)|
    ensures FreeOf(FreeTile(s.tiles, k))
         == FreeOf(s.tiles)[..MergeFrom(s, k, i)] + [Merged(s, k)] + FreeOf(s.tiles)[MergeTo(s, k, i)..]
  {
    MergedBefore(s.tiles, k, FreeOf(s.tiles), i);
    MergedAfter(s.tiles, k, FreeOf(s.tiles), i);
    FreeTileShape(s, k);
    FreeOfMerged(s.tiles[..MergeLow(s.tiles, k)], Merged(s, k), s.tiles[MergeHigh(s.tiles, k) + 1..],
                 FreeOf(s.tiles), MergeFrom(s, k, i), MergeTo(s, k, i), FreeTile(s.tiles, k));
  }

  lemma {:induction false} FreeTileShape(s: State, k: nat)
    requires k < |s.tiles|
    ensures FreeTile(s.tiles, k) ==
      s.tiles[..MergeLow(s.tiles, k)] + [Merged(s, k)] + s.tiles[MergeHigh(s.tiles, k) + 1..]
  {
  }

  /** The header and links free has to leave behind when listed blocks i..hi give way to t. */
  ghost predicate MergeWritten(free: seq<Tile>, i: nat, hi: nat, t: Tile, mem': seq<nat>, head: nat, head': nat)
    requires i <= |free|
  {
    && HeaderOk(mem', t)
    && Load(mem', t.addr + 4) == AddrAt(free, hi)
    && (i > 0 ==> head' == head && InMemory(mem', free[i - 1]))
    && (if i == 0 then head' else Load(mem', free[i - 1].addr + 4)) == t.addr
  }

  ghost predicate MergeDone(s: State, k: nat, i: nat, mem': seq<nat>, head: nat, head': nat)
    requires k < |s.tiles| && i <= |FreeOf(s.tiles)|
  {
    MergeWritten(FreeOf(s.tiles), MergeFrom(s, k, i), MergeTo(s, k, i), Merged(s, k), mem', head, head')
  }

  lemma ListedOutsideMerge(s: State, k: nat, i: nat, j: nat)
    requires WellFormed(s) && SplitsAt(s, k, i)
    requires 0 <= j < MergeFrom(s, k, i) || MergeTo(s, k, i) <= j < |FreeOf(s.tiles)|
    ensures Outside(FreeOf(s.tiles)[j], s.tiles[MergeLow(s.tiles, k)].addr, s.tiles[k].End())
  {
    var free := FreeOf(s.tiles);
    if j < MergeFrom(s, k, i) {
      MergedBefore(s.tiles, k, free, i);
      var lo := MergeLow(s.tiles, k);
      assert free[j] == FreeOf(s.tiles[..lo])[j];
      FreeBelow(s, lo, j);
    } else {
      assert free[j] == FreeOf(s.tiles[k + 1..])[j - i];
      FreeAbove(s, k, j - i);
    }
  }

  ghost predicate KeptOutside(s: State, k: nat, prev: nat, mem: seq<nat>, mem': seq<nat>)
    requires k < |s.tiles|
  {
    var from, to := s.tiles[MergeLow(s.tiles, k)].addr, s.tiles[k].End();
    forall t :: t in s.tiles && Outside(t, from, to) ==> Kept(t, prev, mem, mem')
  }

  /** All listed blocks that are not merged lie outside the merged range. */
  lemma {:induction false} AllListedOutsideMerge(s: State, k: nat, i: nat)
    requires WellFormed(s) && SplitsAt(s, k, i)
    ensures forall j :: 0 <= j < MergeFrom(s, k, i) || MergeTo(s, k, i) <= j < |FreeOf(s.tiles)| ==>
      Outside(FreeOf(s.tiles)[j], s.tiles[MergeLow(s.tiles, k)].addr, s.tiles[k].End())
  {
    forall j | 0 <= j < MergeFrom(s, k, i) || MergeTo(s, k, i) <= j < |FreeOf(s.tiles)|
      ensures Outside(FreeOf(s.tiles)[j], s.tiles[MergeLow(s.tiles, k)].addr, s.tiles[k].End())
    {
      ListedOutsideMerge(s, k, i, j);
    }
  }

  /** The links around the merged block, once the other listed blocks are seen to keep theirs. */
  lemma SpliceMerged(mem: seq<nat>, head: nat, free: seq<Tile>, i: nat, hi: nat, t: Tile, mem': seq<nat>, head': nat,
                     list: seq<Tile>)
    requires Linked(mem, head, free) && i <= hi <= |free| && MergeWritten(free, i, hi, t, mem', head, head')
    requires forall j :: 0 <= j < i - 1 || hi <= j < |free| ==> SameNext(free[j], mem, mem')
    requires list == free[..i] + [t] + free[hi..]
    ensures Linked(mem', head', list)
  {
    Splice(mem, head, free, i, hi, [t], mem', head');
  }

  lemma {:induction false} MergeLinks(s: State, mem: seq<nat>, head: nat, k: nat, i: nat, mem': seq<nat>, head': nat)
    requires Represents(s, mem, head) && SplitsAt(s, k, i) && MergeDone(s, k, i, mem', head, head')
    requires KeptOutside(s, k, PrevAddr(FreeOf(s.tiles), MergeFrom(s, k, i)), mem, mem')
    ensures Linked(mem', head', FreeOf(FreeTile(s.tiles, k)))
  {
    var free, i', hi' := FreeOf(s.tiles), MergeFrom(s, k, i), MergeTo(s, k, i);
    MergedFreeList(s, k, i);
    AllListedOutsideMerge(s, k, i);
    ListedBlocksKept(s, mem, mem', s.tiles[MergeLow(s.tiles, k)].addr, s.tiles[k].End(), i', hi');
    SpliceMerged(mem, head, free, i', hi', Merged(s, k), mem', head', FreeOf(FreeTile(s.tiles, k)));
  }

  lemma MergeKeeps(s: State, mem: seq<nat>, head: nat, k: nat, i: nat, prev: nat, written: set<nat>, mem': seq<nat>)
    requires Represents(s, mem, head) && SplitsAt(s, k, i)
    requires prev == 0 || prev == PrevAddr(FreeOf(s.tiles), MergeFrom(s, k, i))
    requires Touches(mem, mem', s.tiles[MergeLow(s.tiles, k)].addr, s.tiles[k].End(), prev, written)
    ensures KeptOutside(s, k, PrevAddr(FreeOf(s.tiles), MergeFrom(s, k, i)), mem, mem')
  {
    var lo := MergeLow(s.tiles, k);
    MergedFreeList(s, k, i);
    PrevIsListed(s, mem, head, MergeFrom(s, k, i));
    OtherTilesKept(s, mem, mem', s.tiles[lo].addr, s.tiles[k].End(), prev, written);
    forall t | t in s.tiles && Outside(t, s.tiles[lo].addr, s.tiles[k].End())
      ensures Kept(t, PrevAddr(FreeOf(s.tiles), MergeFrom(s, k, i)), mem, mem')
    {
      InHeap(s, t);
    }
  }

  /** Tiles that are not merged came through. */
  lemma UnmergedKept(s: State, k: nat, prev: nat, mem: seq<nat>, mem': seq<nat>)
    requires WellFormed(s) && k < |s.tiles| && s.tiles[k].live && KeptOutside(s, k, prev, mem, mem')
    ensures forall j :: 0 <= j < MergeLow(s.tiles, k) || k < j < |s.tiles| ==> Kept(s.tiles[j], prev, mem, mem')
  {
    TilesOutside(s, MergeLow(s.tiles, k), k);
    forall j | 0 <= j < MergeLow(s.tiles, k) || k < j < |s.tiles| ensures Kept(s.tiles[j], prev, mem, mem') {
      assert s.tiles[j] in s.tiles;
    }
  }

  lemma MergeHeaders(s: State, k: nat, prev: nat, mem: seq<nat>, mem': seq<nat>)
    requires WellFormed(s) && k < |s.tiles| && s.tiles[k].live && KeptOutside(s, k, prev, mem, mem')
    requires HeaderOk(mem', Merged(s, k))
    ensures Headers(mem', FreeTile(s.tiles, k))
    ensures forall t :: t in s.tiles && t.live && t != s.tiles[k] ==> Kept(t, 0, mem, mem')
  {
    UnmergedKept(s, k, prev, mem, mem');
    HeadersSplice(s.tiles, MergeLow(s.tiles, k), MergeHigh(s.tiles, k) + 1, [Merged(s, k)], mem');
    FreeTileShape(s, k);
  }

  /** Freeing leaves memory representing the merged tiling, every other live block intact. */
  lemma MergeRepresents(s: State, mem: seq<nat>, head: nat, k: nat, i: nat, prev: nat, written: set<nat>,
                        mem': seq<nat>, head': nat)
    requires Represents(s, mem, head) && SplitsAt(s, k, i) && MergeDone(s, k, i, mem', head, head')
    requires |mem'| == |mem| && (prev == 0 || prev == PrevAddr(FreeOf(s.tiles), MergeFrom(s, k, i)))
    requires Touches(mem, mem', s.tiles[MergeLow(s.tiles, k)].addr, s.tiles[k].End(), prev, written)
    ensures Represents(s.(tiles := FreeTile(s.tiles, k)), mem', head')
    ensures forall t :: t in s.tiles && t.live && t != s.tiles[k] ==> Kept(t, 0, mem, mem')
  {
    MergeKeeps(s, mem, head, k, i, prev, written, mem');
    MergeLinks(s, mem, head, k, i, mem', head');
    MergeHeaders(s, k, PrevAddr(FreeOf(s.tiles), MergeFrom(s, k, i)), mem, mem');
    FreePreserves(s, k);
  }

  /** The first fitting block of the list is the first fitting tile. */
  lemma {:induction false} NoFitMeansNoListedFit(s: State, needed: nat)
    requires Fit(s.tiles, needed) == |s.tiles|
    ensures forall j :: 0 <= j < |FreeOf(s.tiles)| ==> FreeOf(s.tiles)[j].size < needed
  {
    forall j | 0 <= j < |FreeOf(s.tiles)| ensures FreeOf(s.tiles)[j].size < needed {
      var k := FreeIndex(s.tiles, j);
    }
  }

  lemma {:induction false} FirstListedFitIsFit(s: State, i: nat, k: nat, needed: nat)
    requires ListedAt(s, i, k) && s.tiles[k].size >= needed
    requires forall j :: 0 <= j < i ==> FreeOf(s.tiles)[j].size < needed
    ensures Fit(s.tiles, needed) == k
  {
    var f := Fit(s.tiles, needed);
    if f < k {
      FreeTileIsListed(s.tiles[..k], f);
    }
  }

  lemma {:induction false} NoListedFitMeansNoFit(s: State, needed: nat)
    requires forall j :: 0 <= j < |FreeOf(s.tiles)| ==> FreeOf(s.tiles)[j].size < needed
    ensures Fit(s.tiles, needed) == |s.tiles|
  {
    var f := Fit(s.tiles, needed);
    if f < |s.tiles| {
      FreeTileIsListed(s.tiles, f);
    }
  }

  lemma {:induction false} FreeTileIsListed(tiles: seq<Tile>, k: nat)
    requires k < |tiles| && !tiles[k].live
    ensures tiles[k] in FreeOf(tiles)
  {
    if k > 0 { FreeTileIsListed(tiles[1..], k - 1); }
  }

  /** The header of the i-th listed block: its marked size, then the address of the next one. */
  lemma ListedHeader(s: State, mem: seq<nat>, head: nat, i: nat)
    requires Represents(s, mem, head) && i < |FreeOf(s.tiles)|
    ensures var t := FreeOf(s.tiles)[i];
      && HeaderOk(mem, t) && t.addr >= HEAP_START && t in s.tiles && !t.live
      && Load(mem, t.addr + 4) == AddrAt(FreeOf(s.tiles), i + 1)
  {
    var k := FreeIndex(s.tiles, i);
    assert HeaderOk(mem, s.tiles[k]);
    assert NextOk(mem, FreeOf(s.tiles), i);
  }

  // ---------------------------------------------------------------- malloc's writes

  ghost predicate LinkInMemory(mem: seq<nat>, prev: nat)
  {
    prev != 0 ==> HEAP_START <= prev && prev + 4 < HEAP_START + |mem|
  }

  /** Memory after *pp = v, where pp is &heap_free (prev null) or the next field of block prev. */
  function Relink(mem: seq<nat>, prev: nat, v: nat): (r: seq<nat>)
    requires LinkInMemory(mem, prev)
    ensures |r| == |mem|
  {
    if prev == 0 then mem else Store(mem, prev + 4, v)
  }

  function RelinkHead(head: nat, prev: nat, v: nat): nat { if prev == 0 then v else head }

  /** Memory after splitting a block: two headers, the remainder inheriting the next pointer. */
  function SplitWrites(mem: seq<nat>, block: nat, needed: nat, remaining: nat): (r: seq<nat>)
    requires HEAP_START <= block && MIN_BLOCK <= needed && MIN_BLOCK <= remaining
    requires block + needed + remaining <= HEAP_START + |mem|
    ensures |r| == |mem|
  {
    var m := Store(Store(mem, block, Unmark(needed)), block + needed, Mark(remaining));
    Store(m, block + needed + 4, Load(m, block + 4))
  }

  /** What the list says about its i-th block and the one before it. */
  ghost predicate ListedBlock(free: seq<Tile>, i: nat, mem: seq<nat>)
  {
    && i < |free| && HeaderOk(mem, free[i]) && free[i].size % 2 == 0
    && Load(mem, free[i].addr + 4) == AddrAt(free, i + 1)
    && (i > 0 ==> InMemory(mem, free[i - 1]) && free[i - 1].End() <= free[i].addr)
  }

  lemma BlockIsListed(s: State, mem: seq<nat>, head: nat, i: nat)
    requires Represents(s, mem, head) && i < |FreeOf(s.tiles)|
    ensures ListedBlock(FreeOf(s.tiles), i, mem)
  {
    ListedHeader(s, mem, head, i);
    ListedSized(s, i);
    if i > 0 {
      ListedHeader(s, mem, head, i - 1);
      ListedBlocksApart(s, i - 1, i);
    }
  }

  /** Memory after listed block i is split, or unlinked when the rest is too small for a block. */
  function TakeWrites(mem: seq<nat>, prev: nat, block: nat, needed: nat, size: nat): seq<nat>
    requires LinkInMemory(mem, prev) && MIN_BLOCK <= needed <= size && InMemory(mem, Tile(block, size, false))
  {
    if size - needed >= MIN_BLOCK
    then Relink(SplitWrites(mem, block, needed, size - needed), prev, block + needed)
    else Relink(mem, prev, Load(mem, block + 4))
  }

  function TakeHead(mem: seq<nat>, head: nat, prev: nat, block: nat, needed: nat, size: nat): nat
    requires MIN_BLOCK <= needed <= size && InMemory(mem, Tile(block, size, false))
  {
    RelinkHead(head, prev, if size - needed >= MIN_BLOCK then block + needed else Load(mem, block + 4))
  }

  lemma TakeTouches(free: seq<Tile>, i: nat, needed: nat, mem: seq<nat>)
    requires ListedBlock(free, i, mem) && MIN_BLOCK <= needed <= free[i].size
    ensures var t, prev := free[i], PrevAddr(free, i);
      exists written :: Touches(mem, TakeWrites(mem, prev, t.addr, needed, t.size), t.addr, t.End(), prev, written)
  {
    var t, prev := free[i], PrevAddr(free, i);
    var written := (if prev != 0 then {prev + 4} else {})
      + if t.size - needed >= MIN_BLOCK then {t.addr, t.addr + needed, t.addr + needed + 4} else {};
    assert Touches(mem, TakeWrites(mem, prev, t.addr, needed, t.size), t.addr, t.End(), prev, written);
  }

  lemma SplitIsWritten(free: seq<Tile>, i: nat, needed: nat, mem: seq<nat>, head: nat)
    requires ListedBlock(free, i, mem) && MIN_BLOCK <= needed && needed + MIN_BLOCK <= free[i].size && needed % 2 == 0
    ensures var t, prev := free[i], PrevAddr(free, i);
      CarveWritten(free, i, needed, TakeWrites(mem, prev, t.addr, needed, t.size), head,
                   TakeHead(mem, head, prev, t.addr, needed, t.size))
  {
    var t := free[i];
    assert Carve(t, needed) == [Tile(t.addr, needed, true), Tile(t.addr + needed, t.size - needed, false)];
  }

  lemma UnlinkIsWritten(free: seq<Tile>, i: nat, needed: nat, mem: seq<nat>, head: nat)
    requires ListedBlock(free, i, mem) && MIN_BLOCK <= needed <= free[i].size < needed + MIN_BLOCK
    ensures var t, prev := free[i], PrevAddr(free, i);
      CarveWritten(free, i, needed, TakeWrites(mem, prev, t.addr, needed, t.size), head,
                   TakeHead(mem, head, prev, t.addr, needed, t.size))
  {
    var t := free[i];
    assert Carve(t, needed) == [Tile(t.addr, t.size, true)];
  }

  lemma TakeIsWritten(free: seq<Tile>, i: nat, needed: nat, mem: seq<nat>, head: nat)
    requires ListedBlock(free, i, mem) && MIN_BLOCK <= needed <= free[i].size && needed % 2 == 0
    ensures var t, prev := free[i], PrevAddr(free, i);
      CarveWritten(free, i, needed, TakeWrites(mem, prev, t.addr, needed, t.size), head,
                   TakeHead(mem, head, prev, t.addr, needed, t.size))
  {
    if free[i].size - needed >= MIN_BLOCK {
      SplitIsWritten(free, i, needed, mem, head);
    } else {
      UnlinkIsWritten(free, i, needed, mem, head);
    }
  }

  /** Taking the first listed block that fits represents first-fit placement. */
  lemma TakeRepresents(s: State, mem: seq<nat>, head: nat, i: nat, needed: nat) returns (k: nat)
    requires Represents(s, mem, head) && i < |FreeOf(s.tiles)| && ListedBlock(FreeOf(s.tiles), i, mem)
    requires MIN_BLOCK <= needed <= FreeOf(s.tiles)[i].size && needed % HEAP_ALIGN == 0
    requires forall j :: 0 <= j < i ==> FreeOf(s.tiles)[j].size < needed
    ensures k < |s.tiles| && k == Fit(s.tiles, needed) && s.tiles[k] == FreeOf(s.tiles)[i]
    ensures var t, prev := s.tiles[k], PrevAddr(FreeOf(s.tiles), i);
      var mem' := TakeWrites(mem, prev, t.addr, needed, t.size);
      var head' := TakeHead(mem, head, prev, t.addr, needed, t.size);
      && Represents(Carved(s, k, needed), mem', head')
      && (forall t :: t in s.tiles && t.live ==> Kept(t, 0, mem, mem'))
  {
    k := FreeIndex(s.tiles, i);
    var t, prev := s.tiles[k], PrevAddr(FreeOf(s.tiles), i);
    var mem', head' := TakeWrites(mem, prev, t.addr, needed, t.size), TakeHead(mem, head, prev, t.addr, needed, t.size);
    AlignedIsEven(needed);
    TakeTouches(FreeOf(s.tiles), i, needed, mem);
    TakeIsWritten(FreeOf(s.tiles), i, needed, mem, head);
    var written :| Touches(mem, mem', t.addr, t.End(), prev, written);
    CarveRepresents(s, mem, head, i, k, needed, written, mem', head');
    FirstListedFitIsFit(s, i, k, needed);
  }

  lemma KeptAll(s: State, mem: seq<nat>, head: nat)
    requires Represents(s, mem, head)
    ensures forall t :: t in s.tiles ==> Kept(t, 0, mem, mem)
  {
    forall t | t in s.tiles ensures Kept(t, 0, mem, mem) {
      var k :| 0 <= k < |s.tiles| && s.tiles[k] == t;
      assert HeaderOk(mem, s.tiles[k]);
    }
  }

  /** Memory after the new pages are appended as one block and linked behind prev. */
  function GrowWrites(mem: seq<nat>, pages: seq<nat>, prev: nat): (r: seq<nat>)
    requires LinkInMemory(mem, prev) && |pages| >= MIN_BLOCK
    ensures |r| == |mem| + |pages|
  {
    var top := HEAP_START + |mem|;
    Relink(Store(Store(mem + pages, top, Mark(|pages|)), top + 4, 0), prev, top)
  }

  /** The appended block has all the pages, and the header that says so. */
  lemma GrownHeader(mem: seq<nat>, pages: seq<nat>, prev: nat)
    requires LinkInMemory(mem, prev) && |pages| >= MIN_BLOCK && |pages| % 2 == 0
    ensures var top, r := HEAP_START + |mem|, GrowWrites(mem, pages, prev);
      Unmark(Load(r, top)) == |pages| && InMemory(r, Tile(top, |pages|, false))
  {
    assert Unmark(Mark(|pages|)) == |pages|;
  }

  /** The appended block is listed last. */
  lemma GrowLists(free: seq<Tile>, mem: seq<nat>, pages: seq<nat>)
    requires |pages| >= MIN_BLOCK && |pages| % 2 == 0
    requires free != [] ==> InMemory(mem, free[|free| - 1])
    ensures var top, prev := HEAP_START + |mem|, PrevAddr(free, |free|);
      && LinkInMemory(mem, prev)
      && ListedBlock(free + [Tile(top, |pages|, false)], |free|, GrowWrites(mem, pages, prev))
      && Frame(mem, GrowWrites(mem, pages, prev), if free == [] then {} else {prev + 4})
  {
    MarkedSum(|pages|, 0);
  }

  lemma FrameTrans(m0: seq<nat>, m1: seq<nat>, m2: seq<nat>, w: set<nat>, from: nat, to: nat, prev: nat,
                   written: set<nat>)
    requires Frame(m0, m1, w) && Touches(m1, m2, from, to, prev, written)
    requires forall a :: a in w ==> prev != 0 && a == prev + 4
    ensures Touches(m0, m2, from, to, prev, w + written)
  {
  }

  /** All that growing and cutting write: the new pages, and the link to them. */
  lemma GrowTakeTouches(free: seq<Tile>, mem: seq<nat>, pages: seq<nat>, prev: nat, needed: nat, top: nat)
    returns (written: set<nat>)
    requires MIN_BLOCK <= needed <= |pages| && |pages| % 2 == 0 && top == HEAP_START + |mem|
    requires prev == PrevAddr(free, |free|)
    requires free != [] ==> InMemory(mem, free[|free| - 1])
    ensures LinkInMemory(mem, prev)
    ensures ListedBlock(free + [Tile(top, |pages|, false)], |free|, GrowWrites(mem, pages, prev))
    ensures Touches(mem, TakeWrites(GrowWrites(mem, pages, prev), prev, top, needed, |pages|), top, top + |pages|,
                    prev, written)
  {
    GrowLists(free, mem, pages);
    var m1 := GrowWrites(mem, pages, prev);
    var w := if free == [] then {} else {prev + 4};
    var written1 := GrowTouches(free + [Tile(top, |pages|, false)], |free|, needed, m1, prev, top, |pages|);
    FrameTrans(mem, m1, TakeWrites(m1, prev, top, needed, |pages|), w, top, top + |pages|, prev, written1);
    written := w + written1;
  }

  /** Growing by new pages and cutting the block from them represents the grown tiling. */
  lemma {:induction false} GrowTakeRepresents(s: State, mem: seq<nat>, head: nat, needed: nat, pages: seq<nat>)
    requires Represents(s, mem, head) && MIN_BLOCK <= needed <= |pages| && s.top + |pages| <= WORD
    requires needed % HEAP_ALIGN == 0 && |pages| % HEAP_ALIGN == 0
    requires FreeOf(s.tiles) != [] ==> InMemory(mem, FreeOf(s.tiles)[|FreeOf(s.tiles)| - 1])
    ensures var grow, prev := |pages|, PrevAddr(FreeOf(s.tiles), |FreeOf(s.tiles)|);
      && LinkInMemory(mem, prev)
      && var m1, h1 := GrowWrites(mem, pages, prev), RelinkHead(head, prev, s.top);
      var mem', head' := TakeWrites(m1, prev, s.top, needed, grow), TakeHead(m1, h1, prev, s.top, needed, grow);
      && Represents(Grown(s, needed, grow), mem', head')
      && (forall t :: t in s.tiles && t.live ==> Kept(t, 0, mem, mem'))
  {
    var free, grow := FreeOf(s.tiles), |pages|;
    var prev := PrevAddr(free, |free|);
    AlignedIsEven(needed);
    AlignedIsEven(grow);
    var written := GrowTakeTouches(free, mem, pages, prev, needed, s.top);
    var m1, h1 := GrowWrites(mem, pages, prev), RelinkHead(head, prev, s.top);
    GrowIsWritten(free, s.top, needed, grow, m1, head, h1);
    GrowRepresents(s, mem, head, needed, grow, written,
                   TakeWrites(m1, prev, s.top, needed, grow), TakeHead(m1, h1, prev, s.top, needed, grow));
  }

  lemma GrowTouches(listed: seq<Tile>, n: nat, needed: nat, m1: seq<nat>, prev: nat, top: nat, grow: nat)
    returns (written: set<nat>)
    requires n < |listed| && listed[n] == Tile(top, grow, false) && prev == PrevAddr(listed, n)
    requires ListedBlock(listed, n, m1) && MIN_BLOCK <= needed <= grow
    ensures Touches(m1, TakeWrites(m1, prev, top, needed, grow), top, top + grow, prev, written)
  {
    TakeTouches(listed, n, needed, m1);
    written :| Touches(m1, TakeWrites(m1, prev, top, needed, grow), top, top + grow, prev, written);
  }

  lemma GrowIsWritten(free: seq<Tile>, top: nat, needed: nat, grow: nat, m1: seq<nat>, head: nat, h1: nat)
    requires ListedBlock(free + [Tile(top, grow, false)], |free|, m1)
    requires MIN_BLOCK <= needed <= grow && needed % 2 == 0 && (free != [] ==> h1 == head)
    ensures var prev := PrevAddr(free, |free|);
      GrowWritten(head, free, Carve(Tile(top, grow, false), needed), TakeWrites(m1, prev, top, needed, grow),
                  TakeHead(m1, h1, prev, top, needed, grow))
  {
    TakeIsWritten(free + [Tile(top, grow, false)], |free|, needed, m1, h1);
  }

  lemma LastListed(s: State, mem: seq<nat>, head: nat)
    requires Represents(s, mem, head)
    ensures FreeOf(s.tiles) != [] ==> InMemory(mem, FreeOf(s.tiles)[|FreeOf(s.tiles)| - 1])
  {
    if FreeOf(s.tiles) != [] { ListedHeader(s, mem, head, |FreeOf(s.tiles)| - 1); }
  }

  /** What a walk of the list relies on: links and headers of exactly these blocks. */
  ghost predicate Walkable(mem: seq<nat>, head: nat, free: seq<Tile>)
  {
    Linked(mem, head, free) && forall j :: 0 <= j < |free| ==> HeaderOk(mem, free[j])
  }

  lemma ListIsWalkable(s: State, mem: seq<nat>, head: nat)
    requires Represents(s, mem, head)
    ensures Walkable(mem, head, FreeOf(s.tiles))
  {
    forall j | 0 <= j < |FreeOf(s.tiles)| ensures HeaderOk(mem, FreeOf(s.tiles)[j]) {
      ListedHeader(s, mem, head, j);
    }
  }

  lemma ListedBelowTop(s: State, mem: seq<nat>, head: nat, i: nat)
    requires Represents(s, mem, head) && i <= |FreeOf(s.tiles)|
    requires i < |FreeOf(s.tiles)| ==> FreeOf(s.tiles)[i].addr >= s.top
    ensures i == |FreeOf(s.tiles)|
  {
    if i < |FreeOf(s.tiles)| { ListedHeader(s, mem, head, i); }
  }

  // ---------------------------------------------------------------- free's writes

  /** Memory after the freed block takes over a touching successor, or links to it. */
  function JoinNext(mem: seq<nat>, block: nat, size: nat, curr: nat): (r: seq<nat>)
    requires InMemory(mem, Tile(block, size, false))
    requires curr != 0 ==> HEAP_START <= curr && curr + 4 < HEAP_START + |mem|
    ensures |r| == |mem|
  {
    var m := Store(mem, block, Mark(size));
    if curr != 0 && block + size == curr
    then Store(Store(m, block, Mark(size + Unmark(Load(m, curr)))), block + 4, Load(m, curr + 4))
    else Store(m, block + 4, curr)
  }

  /** Memory after a touching predecessor takes over the freed block. */
  function JoinPrev(mem: seq<nat>, block: nat, prev: nat): (r: seq<nat>)
    requires LinkInMemory(mem, prev) && LinkInMemory(mem, block) && block != 0
    ensures |r| == |mem|
  {
    if prev != 0 && prev + Unmark(Load(mem, prev)) == block
    then Store(Store(mem, prev, Mark(Unmark(Load(mem, prev)) + Unmark(Load(mem, block)))), prev + 4,
               Load(mem, block + 4))
    else mem
  }

  ghost predicate GapNext(free: seq<Tile>, i: nat, t: Tile, mem: seq<nat>)
  {
    i < |free| ==>
      && HeaderOk(mem, free[i]) && free[i].size % 2 == 0 && t.End() <= free[i].addr
      && Load(mem, free[i].addr + 4) == AddrAt(free, i + 1)
  }

  ghost predicate GapPrev(free: seq<Tile>, i: nat, t: Tile, mem: seq<nat>)
    requires i <= |free|
  {
    && (i > 0 ==> HeaderOk(mem, free[i - 1]) && free[i - 1].size % 2 == 0 && free[i - 1].End() <= t.addr)
    && (i > 1 ==> InMemory(mem, free[i - 2]) && free[i - 2].End() <= free[i - 1].addr
                  && Load(mem, free[i - 2].addr + 4) == free[i - 1].addr)
  }

  /** Block t lies in the list gap before index i, between readable neighbours. */
  ghost predicate Gap(free: seq<Tile>, i: nat, t: Tile, mem: seq<nat>)
  {
    i <= |free| && HeaderOk(mem, t) && t.size % 2 == 0 && GapNext(free, i, t, mem) && GapPrev(free, i, t, mem)
  }

  ghost predicate TouchesNext(free: seq<Tile>, i: nat, t: Tile) { i < |free| && t.End() == free[i].addr }

  ghost predicate TouchesPrev(free: seq<Tile>, i: nat, t: Tile) { 0 < i <= |free| && free[i - 1].End() == t.addr }

  /** The freed block joined to its successor, as it sits in the list before joining its predecessor. */
  ghost function JoinedNext(free: seq<Tile>, i: nat, t: Tile): Tile
  {
    Tile(t.addr, t.size + if TouchesNext(free, i, t) then free[i].size else 0, false)
  }

  ghost function NextIndex(free: seq<Tile>, i: nat, t: Tile): nat { if TouchesNext(free, i, t) then i + 1 else i }

  /** The mark does not get in the way of even sizes. */
  lemma MarkedSum(a: nat, b: nat)
    requires a % 2 == 0 && b % 2 == 0
    ensures Unmark(Mark(a + b)) == a + b && Unmark(Mark(a)) == a
  {
    assert (a + b) % 2 == 0;
  }

  /** The words written when the block at a takes over the one behind it. */
  lemma JoinedWords(mem: seq<nat>, a: nat, size: nat, curr: nat)
    requires InMemory(mem, Tile(a, size, false)) && a + size == curr && curr + 4 < HEAP_START + |mem|
    ensures var r := JoinNext(mem, a, size, curr);
      && Load(r, a) == Mark(size + Unmark(Load(mem, curr))) && Load(r, a + 4) == Load(mem, curr + 4)
      && Frame(mem, r, {a, a + 4})
  {
  }

  lemma JoinedNextWritten(free: seq<Tile>, i: nat, t: Tile, mem: seq<nat>)
    requires Gap(free, i, t, mem) && TouchesNext(free, i, t)
    ensures var r := JoinNext(mem, t.addr, t.size, free[i].addr);
      && HeaderOk(r, Tile(t.addr, t.size + free[i].size, false)) && Load(r, t.addr + 4) == AddrAt(free, i + 1)
      && Frame(mem, r, {t.addr, t.addr + 4})
  {
    JoinedWords(mem, t.addr, t.size, free[i].addr);
    MarkedSum(t.size, free[i].size);
  }

  lemma AloneNextWritten(free: seq<Tile>, i: nat, t: Tile, mem: seq<nat>)
    requires Gap(free, i, t, mem) && !TouchesNext(free, i, t)
    ensures var r := JoinNext(mem, t.addr, t.size, AddrAt(free, i));
      && HeaderOk(r, Tile(t.addr, t.size, false)) && Load(r, t.addr + 4) == AddrAt(free, i)
      && Frame(mem, r, {t.addr, t.addr + 4})
  {
  }

  lemma JoinNextWritten(free: seq<Tile>, i: nat, t: Tile, mem: seq<nat>)
    requires Gap(free, i, t, mem)
    ensures var r := JoinNext(mem, t.addr, t.size, AddrAt(free, i));
      && HeaderOk(r, JoinedNext(free, i, t)) && Load(r, t.addr + 4) == AddrAt(free, NextIndex(free, i, t))
      && Frame(mem, r, {t.addr, t.addr + 4})
  {
    if TouchesNext(free, i, t) { JoinedNextWritten(free, i, t, mem); } else { AloneNextWritten(free, i, t, mem); }
  }

  ghost function MergeResult(free: seq<Tile>, i: nat, t: Tile): Tile
  {
    var n := JoinedNext(free, i, t);
    if TouchesPrev(free, i, t) then Tile(free[i - 1].addr, free[i - 1].size + n.size, false) else n
  }

  ghost function PrevIndex(free: seq<Tile>, i: nat, t: Tile): nat { if TouchesPrev(free, i, t) then i - 1 else i }

  function FreeWrites(mem: seq<nat>, block: nat, size: nat, prev: nat, curr: nat): seq<nat>
    requires InMemory(mem, Tile(block, size, false)) && LinkInMemory(mem, prev) && LinkInMemory(mem, curr)
  {
    JoinPrev(Relink(JoinNext(mem, block, size, curr), prev, block), block, prev)
  }

  lemma JoinPrevWritten(p: Tile, n: Tile, mem: seq<nat>)
    requires HeaderOk(mem, p) && HeaderOk(mem, n) && p.End() <= n.addr && p.size % 2 == 0 && n.size % 2 == 0
    ensures var r := JoinPrev(mem, n.addr, p.addr);
      && |r| == |mem|
      && (p.End() == n.addr ==>
           && HeaderOk(r, Tile(p.addr, p.size + n.size, false)) && Load(r, p.addr + 4) == Load(mem, n.addr + 4)
           && Frame(mem, r, {p.addr, p.addr + 4}))
      && (p.End() != n.addr ==> r == mem)
  {
  }

  ghost function FreeSet(free: seq<Tile>, i: nat, t: Tile): set<nat>
  {
    {t.addr, t.addr + 4}
    + (if 0 < i <= |free| then {free[i - 1].addr + 4} else {})
    + if TouchesPrev(free, i, t) then {free[i - 1].addr} else {}
  }

  /** The freed block heads its part of the list; only its predecessor may still have to join it. */
  ghost predicate HalfWritten(free: seq<Tile>, i: nat, t: Tile, mem: seq<nat>, m: seq<nat>)
    requires Gap(free, i, t, mem)
  {
    && |m| == |mem|
    && HeaderOk(m, JoinedNext(free, i, t)) && Load(m, t.addr + 4) == AddrAt(free, NextIndex(free, i, t))
    && (i > 0 ==> HeaderOk(m, free[i - 1]) && Load(m, free[i - 1].addr + 4) == t.addr)
    && Frame(mem, m, {t.addr, t.addr + 4} + if i > 0 then {free[i - 1].addr + 4} else {})
  }

  lemma FreeHalfWritten(free: seq<Tile>, i: nat, t: Tile, mem: seq<nat>)
    requires Gap(free, i, t, mem)
    ensures HalfWritten(free, i, t, mem,
                        Relink(JoinNext(mem, t.addr, t.size, AddrAt(free, i)), PrevAddr(free, i), t.addr))
  {
    JoinNextWritten(free, i, t, mem);
    LinkToFreed(free, i, t, mem, JoinNext(mem, t.addr, t.size, AddrAt(free, i)));
  }

  lemma LinkToFreed(free: seq<Tile>, i: nat, t: Tile, mem: seq<nat>, m: seq<nat>)
    requires Gap(free, i, t, mem) && |m| == |mem| && Frame(mem, m, {t.addr, t.addr + 4})
    requires HeaderOk(m, JoinedNext(free, i, t)) && Load(m, t.addr + 4) == AddrAt(free, NextIndex(free, i, t))
    ensures HalfWritten(free, i, t, mem, Relink(m, PrevAddr(free, i), t.addr))
  {
  }

  lemma FrameCompose(m0: seq<nat>, m1: seq<nat>, m2: seq<nat>, w1: set<nat>, w2: set<nat>)
    requires Frame(m0, m1, w1) && Frame(m1, m2, w2)
    ensures Frame(m0, m2, w1 + w2)
  {
  }

  lemma JoinsPrevFrame(free: seq<Tile>, i: nat, t: Tile, mem: seq<nat>, m: seq<nat>, r: seq<nat>)
    requires TouchesPrev(free, i, t)
    requires Frame(mem, m, {t.addr, t.addr + 4} + {free[i - 1].addr + 4})
    requires Frame(m, r, {free[i - 1].addr, free[i - 1].addr + 4})
    ensures Frame(mem, r, FreeSet(free, i, t))
  {
    var p := free[i - 1].addr;
    FrameCompose(mem, m, r, {t.addr, t.addr + 4} + {p + 4}, {p, p + 4});
    assert FreeSet(free, i, t) == {t.addr, t.addr + 4} + {p + 4} + {p, p + 4};
  }

  lemma FreeJoinsPrev(free: seq<Tile>, i: nat, t: Tile, mem: seq<nat>, m: seq<nat>, head: nat)
    requires Gap(free, i, t, mem) && HalfWritten(free, i, t, mem, m) && TouchesPrev(free, i, t)
    requires i == 1 ==> head == free[0].addr
    ensures var r := JoinPrev(m, t.addr, free[i - 1].addr);
      && |r| == |mem| && Frame(mem, r, FreeSet(free, i, t))
      && MergeWritten(free, i - 1, NextIndex(free, i, t), MergeResult(free, i, t), r, head, head)
  {
    var r := JoinPrev(m, t.addr, free[i - 1].addr);
    JoinedHeader(free, i, t, mem, m);
    JoinsPrevFrame(free, i, t, mem, m, r);
    FarLinkKept(free, i, t, mem, r);
  }

  /** The header and link of the block that took over the freed one. */
  lemma JoinedHeader(free: seq<Tile>, i: nat, t: Tile, mem: seq<nat>, m: seq<nat>)
    requires Gap(free, i, t, mem) && HalfWritten(free, i, t, mem, m) && TouchesPrev(free, i, t)
    ensures var r, u := JoinPrev(m, t.addr, free[i - 1].addr), MergeResult(free, i, t);
      |r| == |mem| && HeaderOk(r, u) && u.addr == free[i - 1].addr
        && Load(r, u.addr + 4) == AddrAt(free, NextIndex(free, i, t))
  {
    JoinPrevWritten(free[i - 1], JoinedNext(free, i, t), m);
  }

  lemma FarLinkKept(free: seq<Tile>, i: nat, t: Tile, mem: seq<nat>, r: seq<nat>)
    requires Gap(free, i, t, mem) && TouchesPrev(free, i, t) && Frame(mem, r, FreeSet(free, i, t))
    ensures i > 1 ==> InMemory(r, free[i - 2]) && Load(r, free[i - 2].addr + 4) == free[i - 1].addr
  {
    if i > 1 { assert free[i - 2].addr + 4 !in FreeSet(free, i, t); }
  }

  lemma FreeStandsAlone(free: seq<Tile>, i: nat, t: Tile, mem: seq<nat>, m: seq<nat>, head: nat)
    requires Gap(free, i, t, mem) && HalfWritten(free, i, t, mem, m) && !TouchesPrev(free, i, t)
    ensures var r := JoinPrev(m, t.addr, PrevAddr(free, i));
      && |r| == |mem| && Frame(mem, r, FreeSet(free, i, t))
      && MergeWritten(free, i, NextIndex(free, i, t), MergeResult(free, i, t), r, head,
                      RelinkHead(head, PrevAddr(free, i), t.addr))
  {
    if i > 0 { JoinPrevWritten(free[i - 1], JoinedNext(free, i, t), m); }
  }

  /** The words free rewrites are the merged block's header and the one link to it. */
  lemma FreeIsWritten(free: seq<Tile>, i: nat, t: Tile, mem: seq<nat>, head: nat)
    requires Gap(free, i, t, mem) && (i == 1 ==> head == free[0].addr)
    ensures var prev := PrevAddr(free, i);
      var mem', head' := FreeWrites(mem, t.addr, t.size, prev, AddrAt(free, i)), RelinkHead(head, prev, t.addr);
      && |mem'| == |mem|
      && Frame(mem, mem', FreeSet(free, i, t))
      && MergeWritten(free, PrevIndex(free, i, t), NextIndex(free, i, t), MergeResult(free, i, t), mem', head, head')
  {
    var m := Relink(JoinNext(mem, t.addr, t.size, AddrAt(free, i)), PrevAddr(free, i), t.addr);
    FreeHalfWritten(free, i, t, mem);
    if TouchesPrev(free, i, t) {
      FreeJoinsPrev(free, i, t, mem, m, head);
    } else {
      FreeStandsAlone(free, i, t, mem, m, head);
    }
  }

  lemma FreedBlockBelowNext(s: State, mem: seq<nat>, head: nat, k: nat, i: nat)
    requires Represents(s, mem, head) && SplitsAt(s, k, i)
    ensures GapNext(FreeOf(s.tiles), i, s.tiles[k], mem)
  {
    var free := FreeOf(s.tiles);
    if i < |free| {
      ListedHeader(s, mem, head, i);
      ListedSized(s, i);
      assert free[i] == FreeOf(s.tiles[k + 1..])[0];
      FreeAbove(s, k, 0);
    }
  }

  lemma FreedBlockAbovePrev(s: State, mem: seq<nat>, head: nat, k: nat, i: nat)
    requires Represents(s, mem, head) && SplitsAt(s, k, i)
    ensures GapPrev(FreeOf(s.tiles), i, s.tiles[k], mem)
  {
    var free := FreeOf(s.tiles);
    if i > 0 {
      ListedHeader(s, mem, head, i - 1);
      ListedSized(s, i - 1);
      assert free[i - 1] == FreeOf(s.tiles[..k])[i - 1];
      FreeBelow(s, k, i - 1);
    }
    if i > 1 {
      ListedHeader(s, mem, head, i - 2);
      ListedBlocksApart(s, i - 2, i - 1);
    }
  }

  lemma FreedBlockInGap(s: State, mem: seq<nat>, head: nat, k: nat, i: nat)
    requires Represents(s, mem, head) && SplitsAt(s, k, i)
    ensures Gap(FreeOf(s.tiles), i, s.tiles[k], mem)
  {
    TileHeader(s, mem, head, k);
    FreedBlockBelowNext(s, mem, head, k, i);
    FreedBlockAbovePrev(s, mem, head, k, i);
  }

  lemma ListedSized(s: State, i: nat)
    requires WellFormed(s) && i < |FreeOf(s.tiles)|
    ensures FreeOf(s.tiles)[i].size % 2 == 0
  {
    var k := FreeIndex(s.tiles, i);
    TileSizeEven(s, k);
  }

  lemma TileSizeEven(s: State, k: nat)
    requires WellFormed(s) && k < |s.tiles|
    ensures s.tiles[k].size % 2 == 0
  {
    assert Sized(s.tiles[k]);
    AlignedIsEven(s.tiles[k].size);
  }

  lemma TwiceIsEven(q: nat)
    ensures 2 * q % 2 == 0
  {
  }

  lemma AlignedIsEven(n: nat)
    requires n % HEAP_ALIGN == 0
    ensures n % 2 == 0
  {
    assert n == 2 * (4 * (n / 8));
    TwiceIsEven(4 * (n / 8));
  }

  lemma TileHeader(s: State, mem: seq<nat>, head: nat, k: nat)
    requires Represents(s, mem, head) && k < |s.tiles|
    ensures HeaderOk(mem, s.tiles[k]) && s.tiles[k].size % 2 == 0
  {
    assert HeaderOk(mem, s.tiles[k]);
    TileSizeEven(s, k);
  }

  /** List neighbours and tile neighbours of tile k are the same blocks. */
  ghost predicate SameNeighbours(tiles: seq<Tile>, k: nat, free: seq<Tile>, i: nat)
    requires k < |tiles| && i <= |free|
  {
    && (TouchesPrev(free, i, tiles[k]) <==> (k > 0 && !tiles[k - 1].live))
    && (TouchesNext(free, i, tiles[k]) <==> (k + 1 < |tiles| && !tiles[k + 1].live))
    && (TouchesPrev(free, i, tiles[k]) && k > 0 ==> free[i - 1] == tiles[k - 1])
    && (TouchesNext(free, i, tiles[k]) && k + 1 < |tiles| ==> free[i] == tiles[k + 1])
  }

  lemma NeighboursAgree(s: State, k: nat, i: nat)
    requires WellFormed(s) && SplitsAt(s, k, i)
    ensures SameNeighbours(s.tiles, k, FreeOf(s.tiles), i)
  {
    NeighbourTests(s, k, i);
  }

  lemma MergeAgreesOn(s: State, k: nat, free: seq<Tile>, i: nat)
    requires k < |s.tiles| && i <= |free| && SameNeighbours(s.tiles, k, free, i)
    ensures var t := s.tiles[k];
      && PrevIndex(free, i, t) == MergeFrom(s, k, i) && NextIndex(free, i, t) == MergeTo(s, k, i)
      && MergeResult(free, i, t) == Merged(s, k) && (TouchesPrev(free, i, t) <==> MergeLow(s.tiles, k) < k)
  {
  }

  /** The list's view of the merge and the tiling's view of it agree. */
  lemma {:induction false} MergeAgrees(s: State, k: nat, i: nat)
    requires WellFormed(s) && SplitsAt(s, k, i)
    ensures var free, t := FreeOf(s.tiles), s.tiles[k];
      && PrevIndex(free, i, t) == MergeFrom(s, k, i)
      && NextIndex(free, i, t) == MergeTo(s, k, i)
      && MergeResult(free, i, t) == Merged(s, k)
      && (TouchesPrev(free, i, t) <==> MergeLow(s.tiles, k) < k)
  {
    NeighboursAgree(s, k, i);
    MergeAgreesOn(s, k, FreeOf(s.tiles), i);
  }

  lemma FreeTouches(free: seq<Tile>, i: nat, t: Tile, mem: seq<nat>, mem': seq<nat>)
    requires Gap(free, i, t, mem) && Frame(mem, mem', FreeSet(free, i, t))
    ensures Touches(mem, mem', MergeResult(free, i, t).addr, t.End(),
                    if TouchesPrev(free, i, t) then 0 else PrevAddr(free, i), FreeSet(free, i, t))
  {
  }

  /** Freeing live tile k by rewriting those words represents the merged tiling. */
  lemma FreeRepresents(s: State, mem: seq<nat>, head: nat, k: nat, i: nat)
    requires Represents(s, mem, head) && SplitsAt(s, k, i) && Gap(FreeOf(s.tiles), i, s.tiles[k], mem)
    ensures var t, prev, curr := s.tiles[k], PrevAddr(FreeOf(s.tiles), i), AddrAt(FreeOf(s.tiles), i);
      var mem', head' := FreeWrites(mem, t.addr, t.size, prev, curr), RelinkHead(head, prev, t.addr);
      && Represents(s.(tiles := FreeTile(s.tiles, k)), mem', head')
      && (forall u :: u in s.tiles && u.live && u != t ==> Kept(u, 0, mem, mem'))
  {
    var free, t := FreeOf(s.tiles), s.tiles[k];
    var prev := PrevAddr(free, i);
    var mem', head' := FreeWrites(mem, t.addr, t.size, prev, AddrAt(free, i)), RelinkHead(head, prev, t.addr);
    FreeIsWritten(free, i, t, mem, head);
    FreeTouches(free, i, t, mem, mem');
    MergeAgrees(s, k, i);
    MergeRepresents(s, mem, head, k, i, if TouchesPrev(free, i, t) then 0 else prev, FreeSet(free, i, t), mem', head');
  }
}
