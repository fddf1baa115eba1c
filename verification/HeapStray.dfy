/**
 What happens to memory where the heap's promise ends: the owner of a block writes to it, which
 the allocator does not notice, and a request whose growth wraps writes a header behind the heap
 top into memory that may belong to someone else.
 */
module HeapStray {
  import opened HeapTiling
  import opened HeapMemory

  /** The cell belongs to tile t, so to no other. */
  lemma CellOfOneTile(s: State, t: Tile, u: Tile, a: nat)
    requires WellFormed(s) && t in s.tiles && u in s.tiles && t.Contains(a) && u.Contains(a)
    ensures t == u
  {
    var i :| 0 <= i < |s.tiles| && s.tiles[i] == t;
    var j :| 0 <= j < |s.tiles| && s.tiles[j] == u;
    TilingIsPartition(s, a);
  }

  /** An address of the payload of a live tile. */
  ghost predicate InPayload(s: State, t: Tile, a: nat)
  {
    t in s.tiles && t.live && t.addr + HEADER <= a < t.End()
  }

  lemma PayloadHeaders(s: State, mem: seq<nat>, head: nat, t: Tile, a: nat, w: nat)
    requires Represents(s, mem, head) && InPayload(s, t, a) && a < HEAP_START + |mem|
    ensures HEAP_START <= a && Headers(Store(mem, a, w), s.tiles)
  {
    var k :| 0 <= k < |s.tiles| && s.tiles[k] == t;
    assert HeaderOk(mem, s.tiles[k]);
    forall i | 0 <= i < |s.tiles| ensures HeaderOk(Store(mem, a, w), s.tiles[i]) {
      assert HeaderOk(mem, s.tiles[i]);
      if s.tiles[i].addr == a { CellOfOneTile(s, t, s.tiles[i], a); }
    }
  }

  /** A write to the payload of a live tile disturbs neither headers nor links. */
  lemma PayloadWriteRepresents(s: State, mem: seq<nat>, head: nat, t: Tile, a: nat, w: nat)
    requires Represents(s, mem, head) && InPayload(s, t, a) && HEAP_START <= a < HEAP_START + |mem|
    ensures Represents(s, Store(mem, a, w), head)
  {
    PayloadHeaders(s, mem, head, t, a, w);
    FreeOfOrdered(s);
    var free := FreeOf(s.tiles);
    forall i | 0 <= i < |free| ensures NextOk(Store(mem, a, w), free, i) {
      assert NextOk(mem, free, i) && free[i] in free;
      if free[i].addr + 4 == a { CellOfOneTile(s, t, free[i], a); }
    }
  }

  // ---------------------------------------------------------------- a wrapped request

  /** Address of the last listed block, null when the list is empty. */
  ghost function LastAddr(s: State): nat { PrevAddr(FreeOf(s.tiles), |FreeOf(s.tiles)|) }

  /** Memory after a request whose remainder of d bytes lands behind the heap top and becomes the end of the list. */
  function StrayWrites(mem: seq<nat>, prev: nat, d: nat): (r: seq<nat>)
    requires LinkInMemory(mem, prev) && MIN_BLOCK <= d <= |mem|
  {
    var top := HEAP_START + |mem|;
    Relink(Store(Store(Relink(mem, prev, top), top - d, Mark(d)), top - d + 4, 0), prev, top - d)
  }

  /** No two blocks at multiples of 8 share the header of one and the link of the other. */
  lemma ApartByFour(a: nat, b: nat)
    requires a % HEAP_ALIGN == 0 && b % HEAP_ALIGN == 0
    ensures a + 4 != b
  {
  }

  lemma LastIsFree(s: State, mem: seq<nat>, head: nat)
    requires Represents(s, mem, head) && LastAddr(s) != 0
    ensures LinkInMemory(mem, LastAddr(s)) && LastAddr(s) % HEAP_ALIGN == 0
    ensures exists u :: u in s.tiles && !u.live && u.addr == LastAddr(s) && u.size >= MIN_BLOCK
  {
    var free := FreeOf(s.tiles);
    LastListed(s, mem, head);
    FreeOfOrdered(s);
    var u := free[|free| - 1];
    assert u in free;
    var k :| 0 <= k < |s.tiles| && s.tiles[k] == u;
    assert Sized(s.tiles[k]);
  }

  /** The header of the remainder, and the last link, which points to it; in a circle, if it is the last block. */
  lemma StrayEndsList(s: State, mem: seq<nat>, head: nat, d: nat)
    requires Represents(s, mem, head) && MIN_BLOCK <= d <= |mem| && d % HEAP_ALIGN == 0
    ensures LinkInMemory(mem, LastAddr(s))
    ensures var r, split := StrayWrites(mem, LastAddr(s), d), s.top - d;
      && |r| == |mem| && Load(r, split) == Mark(d)
      && (LastAddr(s) != split ==> Load(r, split + 4) == 0)
      && (LastAddr(s) != 0 ==> Load(r, LastAddr(s) + 4) == split)
  {
    if LastAddr(s) != 0 {
      LastIsFree(s, mem, head);
      AlignedBelow(s.top, d);
      ApartByFour(LastAddr(s), s.top - d);
    }
  }

  lemma AlignedBelow(top: nat, d: nat)
    requires top % HEAP_ALIGN == 0 && d % HEAP_ALIGN == 0 && d <= top
    ensures (top - d) % HEAP_ALIGN == 0
  {
  }

  /** A live tile keeps every cell but the two of the header that landed in it; these are overwritten. */
  lemma StrayHitsLiveTile(s: State, mem: seq<nat>, head: nat, d: nat, t: Tile, a: nat)
    requires Represents(s, mem, head) && MIN_BLOCK <= d <= |mem| && d % HEAP_ALIGN == 0
    requires t in s.tiles && t.live && t.Contains(a)
    ensures LinkInMemory(mem, LastAddr(s)) && HEAP_START <= a < HEAP_START + |mem|
    ensures var r, split := StrayWrites(mem, LastAddr(s), d), s.top - d;
      |r| == |mem| && Load(r, a) == if a == split then Mark(d) else if a == split + 4 then 0 else Load(mem, a)
  {
    StrayEndsList(s, mem, head, d);
    var k :| 0 <= k < |s.tiles| && s.tiles[k] == t;
    assert HeaderOk(mem, s.tiles[k]);
    if LastAddr(s) != 0 {
      LastIsFree(s, mem, head);
      var u :| u in s.tiles && !u.live && u.addr == LastAddr(s) && u.size >= MIN_BLOCK;
      if LastAddr(s) + 4 == a { CellOfOneTile(s, t, u, a); }
      if LastAddr(s) == s.top - d && a == s.top - d + 4 { CellOfOneTile(s, t, u, a); }
    }
  }
}
