/**
 elf_load: what a load of a well-formed image leaves behind, and when it succeeds.
 */
module Elf {
  import opened Sizes
  import opened Folding
  import opened VmmModel
  import opened VmmInvariant
  import opened VmmCount
  import opened WordBytes
  import opened ElfMemory
  import opened ElfCount
  import opened ElfModel

  // ---------------------------------------------------------------- well-formed images

  /** n bytes from base on belong to the image. */
  ghost predicate ImageBytes(o: Origin, targets: set<FrameNo>, base: Addr, n: nat)
  {
    forall k: nat {:trigger ImageByte(o, targets, At(base, k))} :: k < n ==> ImageByte(o, targets, At(base, k))
  }

  /** Program header i of the image is h, before the load. */
  ghost predicate HeaderIs(x: ByteAccess, o: Origin, elf: Addr, i: nat, h: Header)
  {
    HeaderAt(x, o.s.m, o.pd, Headers(x, o.s.m, o.pd, elf), i) == h
  }

  /** The program headers of the image, before the load. */
  ghost predicate HeadersAre(x: ByteAccess, o: Origin, elf: Addr, hs: seq<Header>)
  {
    && |hs| == HeaderCount(x, o.s.m, o.pd, elf)
    && forall i {:trigger HeaderIs(x, o, elf, i, hs[i])} :: 0 <= i < |hs| ==> HeaderIs(x, o, elf, i, hs[i])
  }

  /** The file header and the program headers are in the image, and the loadable ones describe good segments. */
  ghost predicate GoodHeaders(x: ByteAccess, o: Origin, targets: set<FrameNo>, elf: Addr, hs: seq<Header>)
  {
    && HeadersAre(x, o, elf, hs)
    && ImageBytes(o, targets, elf, 52)
    && ImageBytes(o, targets, Headers(x, o.s.m, o.pd, elf), 32 * |hs|)
    && (forall i :: 0 <= i < |hs| && hs[i].kind == PT_LOAD ==> GoodHeader(x, o, targets, elf, hs[i]))
  }

  /** No two segments have a page in common, and none has the stack's. */
  ghost predicate PageDisjoint(hs: seq<Header>)
  {
    && (forall i, j :: 0 <= i < j < |hs| ==> SegmentPages(hs[i]) !! SegmentPages(hs[j]))
    && (forall i :: 0 <= i < |hs| ==> STACK !in SegmentPages(hs[i]))
  }

  /** Every existing frame is mapped at its own address, outside the pages to be loaded. */
  ghost predicate IdentityMapped(o: Origin, targets: set<FrameNo>)
  {
    forall f: FrameNo :: f < o.s.m.total ==>
      f !in targets && EntryFor(o.s.m, o.pd, f).flags.present && EntryFor(o.s.m, o.pd, f).frame == f
  }

  /** An image that may be loaded: its segments' pages and the stack's are among the targets. */
  ghost predicate GoodImage(x: ByteAccess, o: Origin, targets: set<FrameNo>, elf: Addr, hs: seq<Header>)
  {
    && GoodHeaders(x, o, targets, elf, hs) && PageDisjoint(hs) && IdentityMapped(o, targets)
    && STACK in targets && !Shared(o.s.m, o.pd, Slot(STACK))
  }

  // ---------------------------------------------------------------- the file format

  /** The bytes at address a and on, the lowest first. */
  function Bytes16(x: ByteAccess, m: Machine, pd: FrameNo, a: nat): nat
  {
    Read(x, m, pd, a % WORD) + 256 * Read(x, m, pd, (a + 1) % WORD)
  }

  function Bytes32(x: ByteAccess, m: Machine, pd: FrameNo, a: nat): nat
  {
    Bytes16(x, m, pd, a) + 0x1_0000 * Bytes16(x, m, pd, a + 2)
  }

  lemma JoinIsSum(b0: Byte, b1: Byte, b2: Byte, b3: Byte)
    ensures Join(b0, b1, b2, b3) == b0 + 256 * b1 + 0x1_0000 * (b2 + 256 * b3)
  {
  }

  lemma FieldIsBytes(x: ByteAccess, m: Machine, pd: FrameNo, base: nat, k: nat)
    ensures Field32(x, m, pd, base, k) == Bytes32(x, m, pd, base + k)
    ensures Field16(x, m, pd, base, k) == Bytes16(x, m, pd, base + k)
  {
    var a := base + k;
    assert At(base, k) == a % WORD && At(base, k + 1) == (a + 1) % WORD;
    assert At(base, k + 2) == (a + 2) % WORD && At(base, k + 3) == (a + 2 + 1) % WORD;
    JoinIsSum(Read(x, m, pd, a % WORD), Read(x, m, pd, (a + 1) % WORD), Read(x, m, pd, (a + 2) % WORD),
              Read(x, m, pd, (a + 2 + 1) % WORD));
  }

  /** Where the fields of the file header stand. */
  lemma EntryPointStands(x: ByteAccess, m: Machine, pd: FrameNo, elf: Addr)
    ensures EntryPoint(x, m, pd, elf) == Bytes32(x, m, pd, elf + 24)
  {
    FieldIsBytes(x, m, pd, elf, 24);
  }

  lemma HeadersStand(x: ByteAccess, m: Machine, pd: FrameNo, elf: Addr)
    ensures Headers(x, m, pd, elf) == (elf + Bytes32(x, m, pd, elf + 28)) % WORD
  {
    FieldIsBytes(x, m, pd, elf, 28);
  }

  lemma HeaderCountStands(x: ByteAccess, m: Machine, pd: FrameNo, elf: Addr)
    ensures HeaderCount(x, m, pd, elf) == Bytes16(x, m, pd, elf + 44)
  {
    FieldIsBytes(x, m, pd, elf, 44);
  }

  lemma MagicBytes(b0: Byte, b1: Byte, b2: Byte, b3: Byte)
    ensures Join(b0, b1, b2, b3) == ELF_MAGIC <==>
      b0 == 0x7F && b1 == 'E' as int && b2 == 'L' as int && b3 == 'F' as int
  {
    JoinBytes(b0, b1, b2, b3);
  }

  /** The magic number is 0x7F and the letters ELF. */
  lemma MagicIsElf(x: ByteAccess, o: Origin, elf: Addr)
    ensures IsElf(x, o, elf) <==>
      && Read(x, o.s.m, o.pd, elf) == 0x7F && Read(x, o.s.m, o.pd, (elf + 1) % WORD) == 'E' as int
      && Read(x, o.s.m, o.pd, (elf + 2) % WORD) == 'L' as int && Read(x, o.s.m, o.pd, (elf + 3) % WORD) == 'F' as int
  {
    assert At(elf, 0) == elf && At(elf, 1) == (elf + 1) % WORD;
    assert At(elf, 2) == (elf + 2) % WORD && At(elf, 3) == (elf + 3) % WORD;
    MagicBytes(Read(x, o.s.m, o.pd, At(elf, 0)), Read(x, o.s.m, o.pd, At(elf, 1)),
               Read(x, o.s.m, o.pd, At(elf, 2)), Read(x, o.s.m, o.pd, At(elf, 3)));
  }

  /** The fields of a program header that the loader uses, each with its offset. */
  function FieldAt(h: Header, k: nat): Addr
  {
    if k == 0 then h.kind else if k == 4 then h.offset else if k == 8 then h.vaddr
    else if k == 16 then h.filesz else h.memsz
  }

  lemma FieldOfHeader(x: ByteAccess, m: Machine, pd: FrameNo, phdrs: Addr, i: nat, k: nat)
    requires k in {0, 4, 8, 16, 20}
    ensures FieldAt(HeaderAt(x, m, pd, phdrs, i), k) == Field32(x, m, pd, phdrs, 32 * i + k)
  {
  }

  /** Program header i is 32 bytes long, and holds its fields at these offsets. */
  lemma HeaderFormat(x: ByteAccess, m: Machine, pd: FrameNo, phdrs: Addr, i: nat, k: nat)
    requires k in {0, 4, 8, 16, 20}
    ensures FieldAt(HeaderAt(x, m, pd, phdrs, i), k) == Bytes32(x, m, pd, phdrs + 32 * i + k)
  {
    FieldOfHeader(x, m, pd, phdrs, i, k);
    FieldIsBytes(x, m, pd, phdrs, 32 * i + k);
    assert phdrs + (32 * i + k) == phdrs + 32 * i + k;
  }

  // ---------------------------------------------------------------- headers stay readable

  lemma FieldKept(x: ByteAccess, o: Origin, m: Machine, own: map<nat, Role>, pages: set<FrameNo>,
                  targets: set<FrameNo>, base: Addr, n: nat, k: nat)
    requires Loading(o, m, own, pages) && pages <= targets && ImageBytes(o, targets, base, n) && k + 4 <= n
    ensures Field32(x, m, o.pd, base, k) == Field32(x, o.s.m, o.pd, base, k)
    ensures Field16(x, m, o.pd, base, k) == Field16(x, o.s.m, o.pd, base, k)
  {
    ImageKept(x, o, m, own, pages, targets, At(base, k));
    ImageKept(x, o, m, own, pages, targets, At(base, k + 1));
    ImageKept(x, o, m, own, pages, targets, At(base, k + 2));
    ImageKept(x, o, m, own, pages, targets, At(base, k + 3));
  }

  lemma HeaderKept(x: ByteAccess, o: Origin, m: Machine, own: map<nat, Role>, pages: set<FrameNo>,
                   targets: set<FrameNo>, elf: Addr, hs: seq<Header>, i: nat)
    requires Loading(o, m, own, pages) && pages <= targets && GoodHeaders(x, o, targets, elf, hs) && i < |hs|
    ensures HeaderAt(x, m, o.pd, Headers(x, o.s.m, o.pd, elf), i) == hs[i]
  {
    var phdrs := Headers(x, o.s.m, o.pd, elf);
    assert HeaderIs(x, o, elf, i, hs[i]);
    FieldKept(x, o, m, own, pages, targets, phdrs, 32 * |hs|, 32 * i);
    FieldKept(x, o, m, own, pages, targets, phdrs, 32 * |hs|, 32 * i + 4);
    FieldKept(x, o, m, own, pages, targets, phdrs, 32 * |hs|, 32 * i + 8);
    FieldKept(x, o, m, own, pages, targets, phdrs, 32 * |hs|, 32 * i + 16);
    FieldKept(x, o, m, own, pages, targets, phdrs, 32 * |hs|, 32 * i + 20);
  }

  /** Whatever the load has done so far, the table reads as the headers hs. */
  ghost predicate TableKept(o: Origin, targets: set<FrameNo>, table: HeaderTable, hs: seq<Header>)
  {
    forall m, own, pages :: Loading(o, m, own, pages) && pages <= targets ==>
      table.count(m) == |hs| && forall i :: 0 <= i < |hs| ==> table.header(m, i) == hs[i]
  }

  lemma HeadersStay(x: ByteAccess, o: Origin, targets: set<FrameNo>, elf: Addr, hs: seq<Header>)
    requires GoodHeaders(x, o, targets, elf, hs)
    ensures TableKept(o, targets, TableAt(x, o.pd, elf, Headers(x, o.s.m, o.pd, elf)), hs)
  {
    var table := TableAt(x, o.pd, elf, Headers(x, o.s.m, o.pd, elf));
    forall m, own, pages | Loading(o, m, own, pages) && pages <= targets
      ensures table.count(m) == |hs| && forall i :: 0 <= i < |hs| ==> table.header(m, i) == hs[i]
    {
      FieldKept(x, o, m, own, pages, targets, elf, 52, 44);
      forall i | 0 <= i < |hs| ensures table.header(m, i) == hs[i] {
        HeaderKept(x, o, m, own, pages, targets, elf, hs, i);
      }
    }
  }

  // ---------------------------------------------------------------- the loop over segments

  /** The segments of headers 0 up to i are loaded, in pages that are done; the others are untouched. */
  ghost predicate LoadedBelow(x: ByteAccess, o: Origin, m: Machine, elf: Addr, hs: seq<Header>, done: set<FrameNo>,
                              i: nat)
  {
    && (forall k :: 0 <= k < i && k < |hs| ==> SegmentPages(hs[k]) <= done && SegmentLoaded(x, o, m, elf, hs[k]))
    && (forall k :: i <= k < |hs| ==> SegmentPages(hs[k]) !! done)
    && STACK !in done
  }

  /** A loaded segment stays loaded while its pages read the same. */
  lemma StaysLoaded(x: ByteAccess, o: Origin, m: Machine, r: Machine, own': map<nat, Role>, pages: set<FrameNo>,
                    done: set<FrameNo>, elf: Addr, h: Header)
    requires SegmentLoaded(x, o, m, elf, h) && SegmentPages(h) <= pages <= done
    requires SameReads(x, m, r, o.pd, pages) && Loading(o, r, own', done)
    ensures SegmentLoaded(x, o, r, elf, h)
  {
    forall a: Addr | PageOf(a) in SegmentPages(h) ensures Read(x, r, o.pd, a) == Read(x, m, o.pd, a) {}
  }

  lemma SegmentDone(x: ByteAccess, o: Origin, m: Machine, r: Machine, own': map<nat, Role>, pages: set<FrameNo>,
                    done: set<FrameNo>, elf: Addr, hs: seq<Header>, i: nat)
    requires PageDisjoint(hs) && LoadedBelow(x, o, m, elf, hs, pages, i) && i < |hs|
    requires Progressed(x, o, m, r, Loaded, own', pages, done, SegmentPages(hs[i]))
    requires SegmentLoaded(x, o, r, elf, hs[i])
    ensures LoadedBelow(x, o, r, elf, hs, done, i + 1)
  {
    forall k | 0 <= k < i ensures SegmentPages(hs[k]) <= done && SegmentLoaded(x, o, r, elf, hs[k]) {
      StaysLoaded(x, o, m, r, own', pages, done, elf, hs[k]);
    }
  }

  /** A load that stops leaves only target pages done, and stops early only when memory is exhausted. */
  ghost predicate Stopped(o: Origin, r: Machine, out: Outcome, own': map<nat, Role>, done: set<FrameNo>,
                          targets: set<FrameNo>)
  {
    Loading(o, r, own', done) && done <= targets && (!out.Loaded? ==> Exhausted(r))
  }

  /** All segments of the headers are good. */
  ghost predicate GoodSegments(x: ByteAccess, o: Origin, targets: set<FrameNo>, elf: Addr, hs: seq<Header>)
  {
    PageDisjoint(hs) && forall i :: 0 <= i < |hs| && hs[i].kind == PT_LOAD ==> GoodHeader(x, o, targets, elf, hs[i])
  }

  /** The loop has reached header i. */
  ghost predicate ReadySo(x: ByteAccess, o: Origin, m: Machine, own: map<nat, Role>, pages: set<FrameNo>,
                          targets: set<FrameNo>, elf: Addr, hs: seq<Header>, i: nat)
  {
    && Lawful(x) && Loading(o, m, own, pages) && pages <= targets && GoodSegments(x, o, targets, elf, hs)
    && i <= |hs| && LoadedBelow(x, o, m, elf, hs, pages, i)
  }

  /** The same, folded up for proofs that only pass it on. */
  ghost predicate Ready(x: ByteAccess, o: Origin, m: Machine, own: map<nat, Role>, pages: set<FrameNo>,
                        targets: set<FrameNo>, elf: Addr, hs: seq<Header>, i: nat)
  {
    forall z: int {:trigger Unfold(z)} :: Unfold(z) ==> ReadySo(x, o, m, own, pages, targets, elf, hs, i)
  }

  lemma ReadyIs(x: ByteAccess, o: Origin, m: Machine, own: map<nat, Role>, pages: set<FrameNo>, targets: set<FrameNo>,
                elf: Addr, hs: seq<Header>, i: nat)
    ensures Ready(x, o, m, own, pages, targets, elf, hs, i) <==> ReadySo(x, o, m, own, pages, targets, elf, hs, i)
  {
    assert Unfold(0);
  }

  /** The pages that loading the headers from i on maps, in order. */
  function PagesFrom(hs: seq<Header>, i: nat): seq<FrameNo>
    requires i <= |hs|
    decreases |hs| - i
  {
    if i == |hs| then [] else HeaderPages(hs[i]) + PagesFrom(hs, i + 1)
  }

  /** Loading the segment of header i, the ones before it being loaded. */
  lemma NextSegment(x: ByteAccess, o: Origin, m: Machine, own: map<nat, Role>, pages: set<FrameNo>,
                    targets: set<FrameNo>, elf: Addr, hs: seq<Header>, i: nat)
    returns (r: Machine, out: Outcome, own': map<nat, Role>, done: set<FrameNo>)
    requires Lawful(x) && Loading(o, m, own, pages) && pages <= targets && PageDisjoint(hs)
    requires i < |hs| && LoadedBelow(x, o, m, elf, hs, pages, i) && hs[i].kind == PT_LOAD
    requires GoodHeader(x, o, targets, elf, hs[i])
    ensures (r, out) == LoadSegment(x, m, o.pd, elf, hs[i])
    ensures Stopped(o, r, out, own', done, targets) && (out.Loaded? ==> LoadedBelow(x, o, r, elf, hs, done, i + 1))
    ensures Spends(o.pd, m, r, EndOf(out), HeaderPages(hs[i]))
  {
    own', done := SegmentLoads(x, o, m, own, pages, targets, elf, hs[i]);
    r, out := LoadSegment(x, m, o.pd, elf, hs[i]).0, LoadSegment(x, m, o.pd, elf, hs[i]).1;
    if out.Loaded? { SegmentDone(x, o, m, r, own', pages, done, elf, hs, i); }
  }

  lemma SkippedSegment(x: ByteAccess, o: Origin, m: Machine, elf: Addr, hs: seq<Header>, pages: set<FrameNo>, i: nat)
    requires i < |hs| && LoadedBelow(x, o, m, elf, hs, pages, i) && hs[i].kind != PT_LOAD
    ensures LoadedBelow(x, o, m, elf, hs, pages, i + 1)
  {
    assert SegmentPages(hs[i]) == {};
  }

  /** What remains of a loop, as a function of the machine and the loop counter. */
  type LoopRest = (Machine, nat) -> (Machine, Outcome)

  ghost predicate SegmentsGive(x: ByteAccess, pd: FrameNo, elf: Addr, table: HeaderTable, m: Machine, i: nat,
                               r: (Machine, Outcome))
  {
    LoadSegments(x, m, pd, elf, table, i) == r
  }

  /** The rest of the loop over headers is the one of the model. */
  ghost predicate SegmentsRest(rest: LoopRest, x: ByteAccess, pd: FrameNo, elf: Addr, table: HeaderTable)
  {
    forall m: Machine, i: nat {:trigger SegmentsGive(x, pd, elf, table, m, i, rest(m, i))} ::
      SegmentsGive(x, pd, elf, table, m, i, rest(m, i))
  }

  /** The loop is over, with every segment loaded or memory exhausted. */
  ghost predicate FinishedSo(x: ByteAccess, o: Origin, r: Machine, out: Outcome, own': map<nat, Role>,
                             done: set<FrameNo>, targets: set<FrameNo>, elf: Addr, hs: seq<Header>)
  {
    Stopped(o, r, out, own', done, targets) && (out.Loaded? ==> LoadedBelow(x, o, r, elf, hs, done, |hs|))
  }

  /** The same, folded up. */
  ghost predicate Finished(x: ByteAccess, o: Origin, r: Machine, out: Outcome, own': map<nat, Role>, done: set<FrameNo>,
                           targets: set<FrameNo>, elf: Addr, hs: seq<Header>)
  {
    forall z: int {:trigger Unfold(z)} :: Unfold(z) ==> FinishedSo(x, o, r, out, own', done, targets, elf, hs)
  }

  lemma FinishedIs(x: ByteAccess, o: Origin, r: Machine, out: Outcome, own': map<nat, Role>, done: set<FrameNo>,
                   targets: set<FrameNo>, elf: Addr, hs: seq<Header>)
    ensures Finished(x, o, r, out, own', done, targets, elf, hs) <==>
      FinishedSo(x, o, r, out, own', done, targets, elf, hs)
  {
    assert Unfold(0);
  }

  /** One turn of the loop: it ends here, or is ready for the next header. */
  lemma NextHeader(x: ByteAccess, o: Origin, m: Machine, own: map<nat, Role>, pages: set<FrameNo>,
                   targets: set<FrameNo>, elf: Addr, table: HeaderTable, hs: seq<Header>, i: nat)
    returns (r: Machine, out: Outcome, own': map<nat, Role>, done: set<FrameNo>)
    requires Ready(x, o, m, own, pages, targets, elf, hs, i) && TableKept(o, targets, table, hs) && i < |hs|
    ensures LoadSegments(x, m, o.pd, elf, table, i) ==
      if out.Loaded? then LoadSegments(x, r, o.pd, elf, table, i + 1) else (r, out)
    ensures out.Loaded? ==> Ready(x, o, r, own', done, targets, elf, hs, i + 1)
    ensures !out.Loaded? ==> Finished(x, o, r, out, own', done, targets, elf, hs)
    ensures Spends(o.pd, m, r, EndOf(out), HeaderPages(hs[i]))
  {
    ReadyIs(x, o, m, own, pages, targets, elf, hs, i);
    if hs[i].kind != PT_LOAD {
      SpendsNothing(o.pd, m);
      SkippedSegment(x, o, m, elf, hs, pages, i);
      r, out, own', done := m, Loaded, own, pages;
    } else {
      r, out, own', done := NextSegment(x, o, m, own, pages, targets, elf, hs, i);
    }
    ReadyIs(x, o, r, own', done, targets, elf, hs, i + 1);
    FinishedIs(x, o, r, out, own', done, targets, elf, hs);
  }

  function Flatten(lists: seq<seq<FrameNo>>, i: nat): seq<FrameNo>
    requires i <= |lists|
    decreases |lists| - i
  {
    if i == |lists| then [] else lists[i] + Flatten(lists, i + 1)
  }

  ghost predicate ListIs(list: seq<FrameNo>, h: Header) { list == HeaderPages(h) }

  /** The pages of each header. */
  ghost predicate ListsAre(lists: seq<seq<FrameNo>>, hs: seq<Header>)
  {
    |lists| == |hs| && forall i {:trigger ListIs(lists[i], hs[i])} :: 0 <= i < |hs| ==> ListIs(lists[i], hs[i])
  }

  lemma {:induction false} FlattenIsPages(lists: seq<seq<FrameNo>>, hs: seq<Header>, i: nat)
    requires ListsAre(lists, hs) && i <= |hs|
    ensures Flatten(lists, i) == PagesFrom(hs, i)
    decreases |hs| - i
  {
    if i < |hs| {
      assert ListIs(lists[i], hs[i]);
      FlattenIsPages(lists, hs, i + 1);
    }
  }

  /** What every turn of the loop relies on, folded up. */
  ghost predicate LoopFacts(rest: LoopRest, x: ByteAccess, o: Origin, targets: set<FrameNo>, elf: Addr,
                            table: HeaderTable, hs: seq<Header>, lists: seq<seq<FrameNo>>)
  {
    forall z: int {:trigger Unfold(z)} :: Unfold(z) ==>
      TableKept(o, targets, table, hs) && SegmentsRest(rest, x, o.pd, elf, table) && ListsAre(lists, hs)
  }

  /** One turn, with the rest of the loop as a function. */
  lemma NextTurn(rest: LoopRest, x: ByteAccess, o: Origin, m: Machine, own: map<nat, Role>, pages: set<FrameNo>,
                 targets: set<FrameNo>,
                 elf: Addr, table: HeaderTable, hs: seq<Header>, i: nat, lists: seq<seq<FrameNo>>)
    returns (r: Machine, out: Outcome, own': map<nat, Role>, done: set<FrameNo>)
    requires Ready(x, o, m, own, pages, targets, elf, hs, i) && i < |hs| && |lists| == |hs|
    requires LoopFacts(rest, x, o, targets, elf, table, hs, lists)
    ensures rest(m, i) == if out.Loaded? then rest(r, i + 1) else (r, out)
    ensures out.Loaded? ==> Ready(x, o, r, own', done, targets, elf, hs, i + 1)
    ensures !out.Loaded? ==> Finished(x, o, r, out, own', done, targets, elf, hs)
    ensures Spends(o.pd, m, r, EndOf(out), lists[i])
  {
    assert Unfold(0);
    assert ListIs(lists[i], hs[i]);
    r, out, own', done := NextHeader(x, o, m, own, pages, targets, elf, table, hs, i);
    assert SegmentsGive(x, o.pd, elf, table, m, i, rest(m, i));
    assert SegmentsGive(x, o.pd, elf, table, r, i + 1, rest(r, i + 1));
  }

  /** After the last header all segments are loaded. */
  lemma LastTurn(rest: LoopRest, x: ByteAccess, o: Origin, m: Machine, own: map<nat, Role>, pages: set<FrameNo>,
                 targets: set<FrameNo>, elf: Addr, table: HeaderTable, hs: seq<Header>, lists: seq<seq<FrameNo>>)
    requires Ready(x, o, m, own, pages, targets, elf, hs, |hs|)
    requires LoopFacts(rest, x, o, targets, elf, table, hs, lists)
    ensures rest(m, |hs|) == (m, Loaded) && Finished(x, o, m, Loaded, own, pages, targets, elf, hs)
  {
    assert Unfold(0);
    ReadyIs(x, o, m, own, pages, targets, elf, hs, |hs|);
    FinishedIs(x, o, m, Loaded, own, pages, targets, elf, hs);
    assert SegmentsGive(x, o.pd, elf, table, m, |hs|, rest(m, |hs|));
  }

  lemma {:induction false} SegmentsFollow(rest: LoopRest, x: ByteAccess, o: Origin, m: Machine, own: map<nat, Role>,
                                          pages: set<FrameNo>,
                                          targets: set<FrameNo>, elf: Addr, table: HeaderTable, hs: seq<Header>, i: nat,
                                          lists: seq<seq<FrameNo>>)
    returns (r: Machine, out: Outcome, own': map<nat, Role>, done: set<FrameNo>)
    requires Ready(x, o, m, own, pages, targets, elf, hs, i) && i <= |hs| && |lists| == |hs|
    requires LoopFacts(rest, x, o, targets, elf, table, hs, lists)
    ensures rest(m, i) == (r, out) && Finished(x, o, r, out, own', done, targets, elf, hs)
    ensures Spends(o.pd, m, r, EndOf(out), Flatten(lists, i))
    decreases |hs| - i
  {
    if i == |hs| {
      LastTurn(rest, x, o, m, own, pages, targets, elf, table, hs, lists);
      SpendsNothing(o.pd, m);
      r, out, own', done := m, Loaded, own, pages;
    } else {
      r, out, own', done := NextTurn(rest, x, o, m, own, pages, targets, elf, table, hs, i, lists);
      if out.Loaded? {
        var m1 := r;
        r, out, own', done := SegmentsFollow(rest, x, o, m1, own', done, targets, elf, table, hs, i + 1, lists);
        SpendsThen(o.pd, m, m1, r, EndOf(out), lists[i], Flatten(lists, i + 1));
      } else {
        SpendsAll(o.pd, m, r, EndOf(out), lists[i], Flatten(lists, i + 1));
      }
    }
  }

  /** The loop over program headers: all segments loaded, or memory exhausted, as the count of frames says. */
  lemma {:induction false} SegmentsLoad(x: ByteAccess, o: Origin, targets: set<FrameNo>, elf: Addr,
                                        table: HeaderTable, hs: seq<Header>)
    returns (r: Machine, out: Outcome, own': map<nat, Role>, done: set<FrameNo>)
    requires Ready(x, o, o.s.m, o.own, {}, targets, elf, hs, 0) && TableKept(o, targets, table, hs)
    ensures (r, out) == LoadSegments(x, o.s.m, o.pd, elf, table, 0)
    ensures Stopped(o, r, out, own', done, targets) && (out.Loaded? ==> LoadedBelow(x, o, r, elf, hs, done, |hs|))
    ensures Spends(o.pd, o.s.m, r, EndOf(out), PagesFrom(hs, 0))
  {
    var pd := o.pd;
    var rest: LoopRest := (m: Machine, i: nat) => LoadSegments(x, m, pd, elf, table, i);
    var lists := seq(|hs|, i requires 0 <= i < |hs| => HeaderPages(hs[i]));
    r, out, own', done := SegmentsFollow(rest, x, o, o.s.m, o.own, {}, targets, elf, table, hs, 0, lists);
    FlattenIsPages(lists, hs, 0);
    FinishedIs(x, o, r, out, own', done, targets, elf, hs);
  }

  // ---------------------------------------------------------------- the stack

  /** The stack page is cleared through the identity mapping, whether or not it got mapped. */
  lemma StackLoads(x: ByteAccess, o: Origin, m: Machine, own: map<nat, Role>, pages: set<FrameNo>,
                   targets: set<FrameNo>)
    returns (r: Machine, own': map<nat, Role>)
    requires Lawful(x) && Loading(o, m, own, pages) && pages <= targets && IdentityMapped(o, targets)
    requires STACK in targets && STACK !in pages && !Shared(o.s.m, o.pd, Slot(STACK)) && !Exhausted(m)
    ensures LoadStack(m, o.pd) == (r, Loaded) && SameReads(x, m, r, o.pd, pages)
    ensures Spends(o.pd, m, r, EndsMapped(GetsMapped(m, o.pd, STACK)), [STACK])
    ensures if GetsMapped(m, o.pd, STACK) then Loading(o, r, own', pages + {STACK}) && ZeroReads(x, r, o.pd, {STACK})
            else Loading(o, r, own', pages) && !EntryFor(r, o.pd, STACK).flags.present && Exhausted(r)
  {
    own' := AllocKeeps(x, o, m, own, pages, STACK);
    AllocSpends(o, m, own, pages, STACK);
    var (m1, f) := AllocIn(m, o.pd, STACK, USER_WRITABLE);
    var now := if GetsMapped(m, o.pd, STACK) then pages + {STACK} else pages;
    StackCleared(x, o, m1, own', now, targets, f);
    r := WriteFrame(m1, f, ZeroFrame());
    SpendsSame(o.pd, m, m1, r, EndsMapped(GetsMapped(m, o.pd, STACK)), [STACK]);
  }

  /** Clearing frame f at its own address clears the stack page if it is mapped there, and no other. */
  lemma {:induction false} StackCleared(x: ByteAccess, o: Origin, m: Machine, own: map<nat, Role>,
                                        pages: set<FrameNo>, targets: set<FrameNo>, f: FrameNo)
    requires Lawful(x) && Loading(o, m, own, pages) && pages <= targets && IdentityMapped(o, targets)
    requires f < m.total && f !in o.s.m.used && Labelled(own, f, Page(o.pd, Slot(STACK), Index(STACK)))
    requires STACK in pages ==> EntryFor(m, o.pd, STACK).frame == f
    ensures var r := WriteFrame(m, f, ZeroFrame());
      && ZeroPage(m, o.pd, f, 0) == (r, true) && Loading(o, r, own, pages) && SameBudget(o.pd, m, r)
      && SameReads(x, m, r, o.pd, pages - {STACK}) && (STACK in pages ==> ZeroReads(x, r, o.pd, {STACK}))
      && EntryFor(r, o.pd, STACK) == EntryFor(m, o.pd, STACK)
  {
    assert IsDir(o.s, o.pd) && IsDir(System(m, o.s.dirs), o.pd);
    assert EntryFor(m, o.pd, f) == EntryFor(o.s.m, o.pd, f);
    ZeroPageClears(o, m, own, pages, f, f, 0);
    ClearedPage(x, o, m, own, pages, STACK, f);
    WriteKeepsLoading(o, m, own, pages, f, ZeroFrame());
  }

  // ---------------------------------------------------------------- the whole load

  /** The image has the magic number. */
  ghost predicate IsElf(x: ByteAccess, o: Origin, elf: Addr) { Magic(x, o.s.m, o.pd, elf) == ELF_MAGIC }

  ghost predicate SegmentsInPlace(x: ByteAccess, o: Origin, r: Machine, elf: Addr, hs: seq<Header>)
  {
    forall i :: 0 <= i < |hs| ==> SegmentLoaded(x, o, r, elf, hs[i])
  }

  /** The stack page is mapped to a new frame and reads as zeros. */
  ghost predicate StackInPlace(x: ByteAccess, o: Origin, r: Machine)
  {
    NewPage(o, r, STACK) && ZeroReads(x, r, o.pd, {STACK})
  }

  ghost predicate StackMapped(o: Origin, r: Machine) { EntryFor(r, o.pd, STACK).flags.present }

  /**
   The frames a complete load takes: one for every page of a segment and for the stack, and one for the table
   of every slot among theirs that is absent before the load.
   */
  ghost function LoadNeeds(o: Origin, hs: seq<Header>): nat
  {
    Cost(PresentSlots(o.s.m, o.pd), PagesFrom(hs, 0) + [STACK])
  }

  /** One frame is missing, and it is the one for a table that only the stack page needs. */
  ghost predicate Stackless(o: Origin, hs: seq<Header>)
  {
    && Free(o.s.m) + 1 == LoadNeeds(o, hs)
    && Slot(STACK) !in PresentSlots(o.s.m, o.pd) && Slot(STACK) !in SlotsOf(PagesFrom(hs, 0))
  }

  /** Going through the pages of the segments, the frames free before the load stop at one with no table to be had. */
  ghost predicate PageStranded(o: Origin, hs: seq<Header>)
  {
    Strands(PresentSlots(o.s.m, o.pd), PagesFrom(hs, 0), Free(o.s.m))
  }

  lemma AllStayLoaded(x: ByteAccess, o: Origin, m: Machine, r: Machine, own': map<nat, Role>, pages: set<FrameNo>,
                      done: set<FrameNo>, elf: Addr, hs: seq<Header>)
    requires LoadedBelow(x, o, m, elf, hs, pages, |hs|) && pages <= done && SameReads(x, m, r, o.pd, pages)
    requires Loading(o, r, own', done)
    ensures SegmentsInPlace(x, o, r, elf, hs)
  {
    forall i | 0 <= i < |hs| ensures SegmentLoaded(x, o, r, elf, hs[i]) {
      StaysLoaded(x, o, m, r, own', pages, done, elf, hs[i]);
    }
  }

  /** What the frames left after the segments decide. */
  lemma {:induction false} StackBudget(o: Origin, m: Machine, hs: seq<Header>)
    requires Spends(o.pd, o.s.m, m, Done, PagesFrom(hs, 0))
    ensures var absent := Slot(STACK) !in PresentSlots(m, o.pd);
      && (Free(m) >= Cost(PresentSlots(m, o.pd), [STACK]) <==> Free(o.s.m) >= LoadNeeds(o, hs))
      && (Free(m) == 1 && absent <==> Stackless(o, hs))
      && Cost(PresentSlots(m, o.pd), [STACK]) == if absent then 2 else 1
  {
    SpendsIs(o.pd, o.s.m, m, Done, PagesFrom(hs, 0));
    CostConcat(PresentSlots(o.s.m, o.pd), PagesFrom(hs, 0), [STACK]);
    CostOfOne(PresentSlots(m, o.pd), STACK);
  }

  /** The load after the loop over segments. */
  lemma LoadEnds(x: ByteAccess, o: Origin, m: Machine, own: map<nat, Role>, pages: set<FrameNo>,
                 targets: set<FrameNo>, elf: Addr, hs: seq<Header>)
    returns (r: Machine, out: Outcome, own': map<nat, Role>, done: set<FrameNo>)
    requires Lawful(x) && Loading(o, m, own, pages) && pages <= targets && IdentityMapped(o, targets)
    requires STACK in targets && !Shared(o.s.m, o.pd, Slot(STACK))
    requires LoadedBelow(x, o, m, elf, hs, pages, |hs|)
    ensures (r, out) == LoadStack(m, o.pd) && Loading(o, r, own', done) && done <= targets
    ensures if Free(m) == 0 then out.Failed? && Exhausted(r) else out.Loaded? && SegmentsInPlace(x, o, r, elf, hs)
    ensures Free(m) > 0 ==>
      if Free(m) >= Cost(PresentSlots(m, o.pd), [STACK]) then StackInPlace(x, o, r)
      else !StackMapped(o, r) && Exhausted(r)
  {
    AllocCounts(m);
    if Exhausted(m) {
      ExhaustedAlloc(m, o.pd, STACK);
      return m, Failed, own, pages;
    }
    r, own' := StackLoads(x, o, m, own, pages, targets);
    out := Loaded;
    MappedIff(o.pd, m, r);
    done := if GetsMapped(m, o.pd, STACK) then pages + {STACK} else pages;
    StackIsNew(o, r, own', done);
    AllStayLoaded(x, o, m, r, own', pages, done, elf, hs);
  }

  lemma MappedIff(pd: FrameNo, m: Machine, r: Machine)
    requires Spends(pd, m, r, EndsMapped(GetsMapped(m, pd, STACK)), [STACK])
    ensures GetsMapped(m, pd, STACK) <==> Free(m) >= Cost(PresentSlots(m, pd), [STACK])
  {
    SpendsIs(pd, m, r, EndsMapped(GetsMapped(m, pd, STACK)), [STACK]);
  }

  lemma StackIsNew(o: Origin, r: Machine, own': map<nat, Role>, done: set<FrameNo>)
    requires Loading(o, r, own', done)
    ensures STACK in done ==> NewPage(o, r, STACK)
  {
  }

  /** The outcome, decided by the frames free before the load. */
  ghost predicate Verdict(x: ByteAccess, o: Origin, r: Machine, out: Outcome, elf: Addr, hs: seq<Header>)
  {
    && (out.Loaded? && StackMapped(o, r) <==> Free(o.s.m) >= LoadNeeds(o, hs))
    && (out.Loaded? && !StackMapped(o, r) <==> Stackless(o, hs))
    && (out.Faulted? <==> PageStranded(o, hs))
    && (out.Loaded? ==> SegmentsInPlace(x, o, r, elf, hs) && (StackMapped(o, r) ==> StackInPlace(x, o, r)))
    && (!out.Loaded? || !StackMapped(o, r) ==> Exhausted(r))
  }

  /** Too few frames for the segments are too few for the load, and not those of a stackless one. */
  lemma {:induction false} SegmentsShort(o: Origin, hs: seq<Header>)
    requires Free(o.s.m) < Cost(PresentSlots(o.s.m, o.pd), PagesFrom(hs, 0))
    ensures Free(o.s.m) < LoadNeeds(o, hs) && !Stackless(o, hs)
  {
    CostConcat(PresentSlots(o.s.m, o.pd), PagesFrom(hs, 0), [STACK]);
    CostOfOne(PresentSlots(o.s.m, o.pd) + SlotsOf(PagesFrom(hs, 0)), STACK);
  }

  /** The outcome when the segments were loaded and the stack was tried. */
  lemma {:induction false} VerdictAfterStack(x: ByteAccess, o: Origin, m: Machine, r: Machine, out: Outcome,
                                             elf: Addr, hs: seq<Header>)
    requires Spends(o.pd, o.s.m, m, Done, PagesFrom(hs, 0))
    requires if Free(m) == 0 then out.Failed? && Exhausted(r) else out.Loaded? && SegmentsInPlace(x, o, r, elf, hs)
    requires Free(m) > 0 ==>
      if Free(m) >= Cost(PresentSlots(m, o.pd), [STACK]) then StackInPlace(x, o, r)
      else !StackMapped(o, r) && Exhausted(r)
    ensures Verdict(x, o, r, out, elf, hs)
  {
    StackBudget(o, m, hs);
    SpendsIs(o.pd, o.s.m, m, Done, PagesFrom(hs, 0));
  }

  /** The outcome when frames ran out before. */
  lemma {:induction false} VerdictWithoutSegments(x: ByteAccess, o: Origin, r: Machine, out: Outcome, elf: Addr,
                                                  hs: seq<Header>)
    requires Spends(o.pd, o.s.m, r, EndOf(out), PagesFrom(hs, 0)) && !out.Loaded? && Exhausted(r)
    ensures Verdict(x, o, r, out, elf, hs)
  {
    SpendsIs(o.pd, o.s.m, r, EndOf(out), PagesFrom(hs, 0));
    SegmentsShort(o, hs);
  }

  /** The loop over program headers, run on the headers of the image itself. */
  lemma {:induction false} ImageSegmentsLoad(x: ByteAccess, o: Origin, targets: set<FrameNo>, elf: Addr,
                                             hs: seq<Header>)
    returns (r: Machine, out: Outcome, own': map<nat, Role>, done: set<FrameNo>)
    requires Lawful(x) && Loading(o, o.s.m, o.own, {}) && GoodImage(x, o, targets, elf, hs)
    ensures (r, out) ==
      LoadSegments(x, o.s.m, o.pd, elf, TableAt(x, o.pd, elf, Headers(x, o.s.m, o.pd, elf)), 0)
    ensures Stopped(o, r, out, own', done, targets) && (out.Loaded? ==> LoadedBelow(x, o, r, elf, hs, done, |hs|))
    ensures Spends(o.pd, o.s.m, r, EndOf(out), PagesFrom(hs, 0))
  {
    HeadersStay(x, o, targets, elf, hs);
    var table := TableAt(x, o.pd, elf, Headers(x, o.s.m, o.pd, elf));
    ReadyIs(x, o, o.s.m, o.own, {}, targets, elf, hs, 0);
    r, out, own', done := SegmentsLoad(x, o, targets, elf, table, hs);
  }

  /** The load of an image with the right magic number. */
  lemma {:induction false} ElfLoads(x: ByteAccess, o: Origin, targets: set<FrameNo>, elf: Addr, hs: seq<Header>)
    returns (r: Machine, out: Outcome, own': map<nat, Role>, done: set<FrameNo>)
    requires Lawful(x) && Loading(o, o.s.m, o.own, {}) && GoodImage(x, o, targets, elf, hs) && IsElf(x, o, elf)
    ensures LoadImage(x, o.s.m, o.pd, elf) == (r, out) && Loading(o, r, own', done) && done <= targets
    ensures Verdict(x, o, r, out, elf, hs)
  {
    r, out, own', done := ImageSegmentsLoad(x, o, targets, elf, hs);
    if out.Loaded? {
      var m := r;
      r, out, own', done := LoadEnds(x, o, m, own', done, targets, elf, hs);
      VerdictAfterStack(x, o, m, r, out, elf, hs);
    } else {
      VerdictWithoutSegments(x, o, r, out, elf, hs);
    }
  }

  /**
   A load of a well-formed image. Whatever the outcome, ownership holds, only target pages are remapped and
   the image is unaltered. An image with the right magic number loads completely, every segment reading as its
   file bytes with zeros around them and the stack page as zeros, exactly when the frames free before the load
   suffice. It is reported as loaded without a stack exactly when the one frame missing is that of a table for
   the stack page alone. It faults in the kernel exactly when going through the pages in order comes to one with
   a frame left for it and none for its table. Otherwise it returns -1.
   */
  lemma {:induction false} LoadIsFaithful(x: ByteAccess, o: Origin, targets: set<FrameNo>, elf: Addr, hs: seq<Header>)
    returns (own': map<nat, Role>, done: set<FrameNo>)
    requires Lawful(x) && Inv(o.s, o.own) && o.pd in o.s.dirs && GoodImage(x, o, targets, elf, hs)
    ensures var (r, out) := LoadImage(x, o.s.m, o.pd, elf);
      && Loading(o, r, own', done) && done <= targets
      && (forall a: Addr :: ImageByte(o, targets, a) ==> Read(x, r, o.pd, a) == Read(x, o.s.m, o.pd, a))
      && (!IsElf(x, o, elf) ==> out.Failed? && r == o.s.m)
      && (IsElf(x, o, elf) ==> Verdict(x, o, r, out, elf, hs) && (out.Loaded? ==> Usable(o, r, hs)))
  {
    own', done := o.own, {};
    assert o.s == System(o.s.m, o.s.dirs);
    SlotsKeptIs(o, o.s.m);
    assert Loading(o, o.s.m, o.own, {});
    var r, out := o.s.m, Failed;
    if IsElf(x, o, elf) {
      r, out, own', done := ElfLoads(x, o, targets, elf, hs);
      if out.Loaded? { LoadedIsUsable(x, o, r, out, elf, hs, own', done); }
    }
    ImageUnaltered(x, o, r, own', done, targets);
  }

  /** The program may use every page of the segments, and the stack page if it is mapped. */
  ghost predicate Usable(o: Origin, r: Machine, hs: seq<Header>)
  {
    && (forall i, p :: 0 <= i < |hs| && p in SegmentPages(hs[i]) ==> ProgramMayUse(o, r, p))
    && (StackMapped(o, r) ==> ProgramMayUse(o, r, STACK))
  }

  /** A load reported as done leaves its pages present, open to the program, and writable wherever a slot lets them. */
  lemma LoadedIsUsable(x: ByteAccess, o: Origin, r: Machine, out: Outcome, elf: Addr, hs: seq<Header>,
                       own': map<nat, Role>, done: set<FrameNo>)
    requires Loading(o, r, own', done) && Verdict(x, o, r, out, elf, hs) && out.Loaded?
    ensures Usable(o, r, hs)
  {
    SlotsKeptIs(o, r);
    forall i, p | 0 <= i < |hs| && p in SegmentPages(hs[i]) ensures ProgramMayUse(o, r, p) {
      assert SegmentLoaded(x, o, r, elf, hs[i]);
      assert NewPage(o, r, p);
    }
  }

  lemma ImageUnaltered(x: ByteAccess, o: Origin, m: Machine, own: map<nat, Role>, pages: set<FrameNo>,
                       targets: set<FrameNo>)
    requires Loading(o, m, own, pages) && pages <= targets
    ensures forall a: Addr :: ImageByte(o, targets, a) ==> Read(x, m, o.pd, a) == Read(x, o.s.m, o.pd, a)
  {
    forall a: Addr | ImageByte(o, targets, a) ensures Read(x, m, o.pd, a) == Read(x, o.s.m, o.pd, a) {
      ImageKept(x, o, m, own, pages, targets, a);
    }
  }
}
