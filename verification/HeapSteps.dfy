/**
  What single steps of kmalloc and kfree do to a heap that is written into memory: list, stamps, regions and
  merged blocks.
 */
module HeapSteps {

  import opened FrameAllocator
  import opened HeapModel
  import opened HeapMemory

  /** Every block lies within memory and above the null page. */
  lemma Placed(st: State, a: nat)
    requires Shape(st) && a in st.heap.blocks
    ensures PAGE_SIZE <= a && a + st.heap.blocks[a].size <= st.frames.total * PAGE_SIZE
    ensures a % 4 == 0 && st.heap.blocks[a].size % 4 == 0 && st.heap.blocks[a].size >= MIN_BLOCK
  {
    IsOk(st.heap, a);
  }

  lemma AllPlaced(st: State)
    requires Shape(st)
    ensures forall a :: a in st.heap.blocks ==>
              PAGE_SIZE <= a && a + st.heap.blocks[a].size <= st.frames.total * PAGE_SIZE
    ensures forall a :: a in st.heap.blocks ==> st.heap.blocks[a].size >= MIN_BLOCK
    ensures Spaced(st.heap.free)
  {
    forall a | a in st.heap.blocks
      ensures PAGE_SIZE <= a && a + st.heap.blocks[a].size <= st.frames.total * PAGE_SIZE
      ensures st.heap.blocks[a].size >= MIN_BLOCK
    {
      Placed(st, a);
    }
    ListIsSpaced(st.heap);
  }

  lemma SizeWord(m: Memory, h: Heap, a: nat)
    requires Written(m, h) && a in h.blocks
    ensures a + h.blocks[a].size <= |m| && h.blocks[a].size >= MIN_BLOCK
    ensures m[a] == h.blocks[a].size && m[a + 4] == HEAP_MAGIC
  {
    assert StampedAt(m, h.blocks, a);
  }

  lemma Basics(st: State)
    requires Shape(st)
    ensures Apart(st.heap.blocks) && Listed(st.heap) && Tiled(st.heap) && ListOk(st.heap)
  {
  }

  /** Taking a block out of the list, or putting one in, leaves the shape as it is. */
  lemma ListKeepsShape(st: State, free: seq<nat>)
    requires Shape(st) && ListOk(st.heap.(free := free))
    ensures Shape(st.(heap := st.heap.(free := free)))
  {
  }

  ghost predicate InMemory(free: seq<nat>, length: nat) {
    forall k :: 0 <= k < |free| ==> free[k] != 0 && free[k] + 16 <= length
  }

  /** A block is taken out of the list: the rest of the heap stays written. */
  lemma Unlinked(st: State, m: Memory, i: nat)
    requires Shape(st) && Written(m, st.heap) && |m| == st.frames.total * PAGE_SIZE && i < |st.heap.free|
    ensures InMemory(st.heap.free, |m|) && Spaced(st.heap.free) && Linked(m, st.heap.free)
    ensures var h' := st.heap.(free := Without(st.heap.free, i));
            Shape(st.(heap := h')) && Written(Unlink(m, st.heap.free, i), h')
    ensures LinksOnly(m, Unlink(m, st.heap.free, i), st.heap.free)
  {
    AllPlaced(st);
    UnlinkIsLinked(m, st.heap.free, i);
    ListKeepsShape(st, Without(st.heap.free, i));
    hide Shape, Tiled;
    forall k | 0 <= k < |st.heap.free| ensures StampedAt(m, st.heap.blocks, st.heap.free[k]) {}
    LinksKeepStamps(m, Unlink(m, st.heap.free, i), st.heap, st.heap.free);
  }

  /** A block in use is put at the end of the list: the rest of the heap stays written. */
  lemma Appended(st: State, m: Memory, a: nat)
    requires Shape(st) && Written(m, st.heap) && |m| == st.frames.total * PAGE_SIZE && Used(st.heap, a)
    ensures InMemory(st.heap.free, |m|) && a != 0 && a + 16 <= |m| && Spaced(st.heap.free) && Linked(m, st.heap.free)
    ensures forall k :: 0 <= k < |st.heap.free| ==> st.heap.free[k] + 16 <= a || a + 16 <= st.heap.free[k]
    ensures Shape(st.(heap := FreePlain(st.heap, a))) && Written(Append(m, st.heap.free, a), FreePlain(st.heap, a))
    ensures LinksOnly(m, Append(m, st.heap.free, a), st.heap.free + [a])
  {
    var free := st.heap.free;
    AllPlaced(st);
    forall k | 0 <= k < |free| ensures free[k] + 16 <= a || a + 16 <= free[k] { Separate(st.heap.blocks, free[k], a); }
    AppendIsLinked(m, free, a);
    ListKeepsShape(st, free + [a]);
    hide Shape, Tiled;
    forall k | 0 <= k < |free + [a]| ensures StampedAt(m, st.heap.blocks, (free + [a])[k]) {}
    LinksKeepStamps(m, Append(m, free, a), st.heap, free + [a]);
  }

  /** The words of the blocks in use are the same. */
  ghost predicate KeepsUse(m: Memory, m': Memory, h: Heap) {
    && |m'| == |m|
    && forall a, x {:trigger Inside(h.blocks, a, x)} ::
         Used(h, a) && Inside(h.blocks, a, x) && 0 <= x < |m| ==> m'[x] == m[x]
  }

  ghost predicate Zeroed(m: Memory, from: int, to: int) {
    forall x :: from <= x < to && 0 <= x < |m| && x % 4 == 0 ==> m[x] == 0
  }

  ghost predicate OnlyIn(m: Memory, m': Memory, from: int, to: int) {
    |m'| == |m| && forall x :: 0 <= x < |m| && !(from <= x < to) ==> m'[x] == m[x]
  }

  lemma PayloadChanged(st: State, m: Memory, m': Memory, a: nat)
    requires Shape(st) && Written(m, st.heap) && Used(st.heap, a)
    requires OnlyIn(m, m', a + HEADER_SIZE, a + st.heap.blocks[a].size - 4)
    ensures Written(m', st.heap) && PayloadOnly(m, m', st.heap.blocks, a)
  {
    PayloadKeeps(m, m', st.heap, a);
  }

  lemma NoFit(st: State, i: nat)
    requires Shape(st) && i <= |st.heap.free| && At(st.heap.free, i) == 0
    ensures i == |st.heap.free|
  {
    AllPlaced(st);
  }

  lemma LinksKeepUse(st: State, m: Memory, m': Memory)
    requires Shape(st) && LinksOnly(m, m', st.heap.free)
    ensures KeepsUse(m, m', st.heap)
  {
    var h := st.heap;
    AllPlaced(st);
    forall b, x {:trigger Inside(h.blocks, b, x)} | Used(h, b) && Inside(h.blocks, b, x) && 0 <= x < |m|
      ensures m'[x] == m[x]
    {
      forall i | 0 <= i < |h.free| ensures x != h.free[i] + 8 && x != h.free[i] + 12 {
        Separate(h.blocks, b, h.free[i]);
      }
    }
  }

  /** The payload at ptr is all zero. */
  ghost predicate Cleared(m: Memory, h: Heap, ptr: nat) {
    && ptr >= HEADER_SIZE && ptr - HEADER_SIZE in h.blocks
    && Zeroed(m, ptr, ptr - HEADER_SIZE + h.blocks[ptr - HEADER_SIZE].size - 4)
  }

  lemma Carved(st: State, i: nat, needed: nat)
    requires Shape(st) && i < |st.heap.free| && st.heap.blocks[st.heap.free[i]].size >= needed
    requires needed % 4 == 0 && needed >= MIN_BLOCK
    ensures Used(Carve(st.heap, i, needed), st.heap.free[i])
  {
    CarveUses(st.heap, i, needed);
  }

  lemma PayloadKeepsUse(st: State, m: Memory, m1: Memory, m2: Memory, i: nat, needed: nat)
    requires Shape(st) && i < |st.heap.free| && st.heap.blocks[st.heap.free[i]].size >= needed
    requires needed % 4 == 0 && needed >= MIN_BLOCK && KeepsUse(m, m1, st.heap)
    requires Used(Carve(st.heap, i, needed), st.heap.free[i])
    requires PayloadOnly(m1, m2, Carve(st.heap, i, needed).blocks, st.heap.free[i])
    ensures KeepsUse(m, m2, st.heap)
  {
    var h, a := st.heap, st.heap.free[i];
    AllPlaced(st);
    forall b, x {:trigger Inside(h.blocks, b, x)} | Used(h, b) && Inside(h.blocks, b, x) && 0 <= x < |m|
      ensures m2[x] == m[x]
    {
      Separate(h.blocks, b, a);
    }
  }

  /** The region with its one block, not yet in the list. */
  function WithRegion(h: Heap, start: nat, size: nat): Heap {
    Heap(h.blocks[start := Block(size, start)], h.free, h.regions[start := start + size], start + size)
  }

  lemma RegionStamped(st: State, m: Memory, m': Memory, start: nat, size: nat)
    requires Shape(st) && Written(m, st.heap) && |m| == st.frames.total * PAGE_SIZE == |m'|
    requires size >= MIN_BLOCK && size % 4 == 0
    requires RegionOk(start, start + size, st.frames) && Outside(st.heap, start, size)
    requires m'[start] == size && m'[start + 4] == HEAP_MAGIC && m'[start + size - 4] == size
    requires forall x :: 0 <= x < |m| && x != start && x != start + 4 && x != start + size - 4 ==> m'[x] == m[x]
    ensures var h' := WithRegion(st.heap, start, size);
            Shape(st.(heap := h')) && Written(m', h') && Used(h', start)
    ensures start !in st.heap.blocks && KeepsUse(m, m', st.heap)
  {
    var h, h' := st.heap, WithRegion(st.heap, start, size);
    RegionJoins(st, start, size);
    ListKeepsShape(State(AddRegion(h, start, size), st.frames), h.free);
    StampKeeps(m, m', h.blocks, h'.blocks, h.free, start);
    forall b, x {:trigger Inside(h.blocks, b, x)} | Used(h, b) && Inside(h.blocks, b, x) && 0 <= x < |m|
      ensures m'[x] == m[x]
    {
      Separate(h'.blocks, b, start);
    }
  }

  lemma AppendKeepsUse(st: State, m: Memory, m1: Memory, m2: Memory, start: nat, size: nat)
    requires Shape(st) && start !in st.heap.blocks && KeepsUse(m, m1, st.heap)
    requires Shape(st.(heap := AddRegion(st.heap, start, size)))
    requires LinksOnly(m1, m2, AddRegion(st.heap, start, size).free)
    ensures KeepsUse(m, m2, st.heap)
  {
    var h, h' := st.heap, AddRegion(st.heap, start, size);
    LinksKeepUse(st.(heap := h'), m1, m2);
    forall b, x {:trigger Inside(h.blocks, b, x)} | Used(h, b) && Inside(h.blocks, b, x) && 0 <= x < |m|
      ensures m2[x] == m[x]
    {
      assert Used(h', b) && Inside(h'.blocks, b, x);
    }
  }

  lemma FramesOk(st: State)
    requires Shape(st)
    ensures 0 in st.frames.held && Sound(st.frames)
  {
  }

  lemma UseSame(m: Memory, h: Heap)
    ensures KeepsUse(m, m, h) && SameUse(h, h)
  {
  }

  lemma UseTrans2(m: Memory, m1: Memory, m2: Memory, h: Heap, h1: Heap)
    requires KeepsUse(m, m1, h) && SameUse(h, h1) && KeepsUse(m1, m2, h1)
    ensures KeepsUse(m, m2, h)
  {
    forall b, x {:trigger Inside(h.blocks, b, x)} | Used(h, b) && Inside(h.blocks, b, x) && 0 <= x < |m|
      ensures m2[x] == m[x]
    {
      assert Used(h1, b) && Inside(h1.blocks, b, x);
    }
  }

  lemma UseTrans(m: Memory, m1: Memory, m2: Memory, h: Heap, h1: Heap, h2: Heap)
    requires KeepsUse(m, m1, h) && SameUse(h, h1) && KeepsUse(m1, m2, h1) && SameUse(h1, h2)
    ensures KeepsUse(m, m2, h) && SameUse(h, h2)
  {
    UseTrans2(m, m1, m2, h, h1);
  }

  lemma NeededIs(size: nat)
    requires size < WORD
    ensures var up := (size + 7) % WORD; var needed := (up - up % 8 + OVERHEAD) % WORD;
            Needed(size) == if needed < MIN_BLOCK then MIN_BLOCK else needed
  {
  }

  lemma NoFitIff(st: State, i: nat, needed: nat)
    requires Shape(st) && i == FirstFit(st.heap, needed, 0)
    ensures At(st.heap.free, i) == 0 <==> i == |st.heap.free|
  {
    AllPlaced(st);
  }

  /** The next page can become a region. */
  lemma PageJoins(st: State)
    requires Shape(st) && TakeResult(st.frames) != 0
    ensures Shape(st.(frames := TakeState(st.frames)))
    ensures RegionOk(TakeResult(st.frames), TakeResult(st.frames) + PAGE_SIZE, TakeState(st.frames))
    ensures Outside(st.heap, TakeResult(st.frames), PAGE_SIZE)
    ensures SameUse(st.heap, AddRegion(st.heap, TakeResult(st.frames), PAGE_SIZE))
  {
    TakenIsNew(st.frames);
    MoreFramesKeepShape(st, TakeState(st.frames));
    NewIsOutside(st, TakeResult(st.frames), PAGE_SIZE);
    RegionJoins(st.(frames := TakeState(st.frames)), TakeResult(st.frames), PAGE_SIZE);
  }

  /** After the attempt to take sixteen pages in a row the heap is as it was, and the row can become a region. */
  lemma RunJoins(st: State)
    requires Shape(st) && TakeResult(st.frames) != 0
    ensures var first := TakeResult(st.frames);
            var (fr, contiguous) := TakeRun(TakeState(st.frames), first, 1);
            && Shape(st.(frames := fr)) && fr.total == st.frames.total
            && (contiguous ==> RegionOk(first, first + HEAP_GROW, fr) && Outside(st.heap, first, HEAP_GROW)
                               && SameUse(st.heap, AddRegion(st.heap, first, HEAP_GROW)))
  {
    hide TakeRun, Tiled, ListOk, LowestFreeFrom;
    var first := TakeResult(st.frames);
    TakenIsNew(st.frames);
    RunIsTaken(st.frames, TakeState(st.frames), first, 1);
    var (fr, contiguous) := TakeRun(TakeState(st.frames), first, 1);
    MoreFramesKeepShape(st, fr);
    if contiguous {
      NewIsOutside(st, first, HEAP_GROW);
      RegionJoins(st.(frames := fr), first, HEAP_GROW);
    }
  }

  ghost predicate TwoWords(m: Memory, m': Memory, x: nat, size: nat) {
    && |m'| == |m| && size >= MIN_BLOCK && x + size <= |m| && m'[x] == size && m'[x + size - 4] == size
    && forall y :: 0 <= y < |m| && y != x && y != x + size - 4 ==> m'[y] == m[y]
  }

  /** The blocks are those of h, except that x has grown over some that are gone. */
  ghost predicate Grown(h: Heap, blocks: map<nat, Block>, x: nat) {
    && x in h.blocks && x in blocks && Tiled(h.(blocks := blocks)) && Listed(h.(blocks := blocks))
    && forall b :: b in blocks && b != x ==> b in h.blocks && blocks[b] == h.blocks[b]
  }

  lemma GrownFits(st: State, blocks: map<nat, Block>, x: nat)
    requires Shape(st) && Grown(st.heap, blocks, x)
    ensures Shape(st.(heap := st.heap.(blocks := blocks)))
    ensures blocks[x].size >= MIN_BLOCK && x + blocks[x].size <= st.frames.total * PAGE_SIZE
  {
    Placed(st.(heap := st.heap.(blocks := blocks)), x);
  }

  lemma GrownIsWritten(st: State, m: Memory, m': Memory, blocks: map<nat, Block>, x: nat)
    requires Shape(st) && Written(m, st.heap) && Grown(st.heap, blocks, x) && x !in st.heap.free
    requires TwoWords(m, m', x, blocks[x].size)
    ensures Written(m', st.heap.(blocks := blocks))
  {
    assert StampedAt(m, st.heap.blocks, x);
    StampKeeps(m, m', st.heap.blocks, blocks, st.heap.free, x);
  }

  lemma MergeGrows(st: State, x: nat, y: nat)
    requires Shape(st) && Adjoins(st.heap.blocks, x, y) && y !in st.heap.free
    ensures Grown(st.heap, Merge(st.heap.blocks, x, y), x)
    ensures Merge(st.heap.blocks, x, y)[x].size == st.heap.blocks[x].size + st.heap.blocks[y].size
  {
    MergeKeepsTiling(st.heap, x, y);
  }

  /** Three blocks become one. */
  lemma MergeThreeGrows(st: State, p: nat, a: nat, n: nat)
    requires Shape(st) && Adjoins(st.heap.blocks, p, a) && Adjoins(st.heap.blocks, a, n)
    requires a !in st.heap.free && n !in st.heap.free
    ensures p in Merge(st.heap.blocks, p, a) && n in Merge(st.heap.blocks, p, a)
    ensures Grown(st.heap, Merge(Merge(st.heap.blocks, p, a), p, n), p)
    ensures Merge(Merge(st.heap.blocks, p, a), p, n)[p].size
         == st.heap.blocks[p].size + st.heap.blocks[a].size + st.heap.blocks[n].size
  {
    IsOk(st.heap, p);
    MergeKeepsTiling(st.heap, p, a);
    MergeKeepsTiling(st.heap.(blocks := Merge(st.heap.blocks, p, a)), p, n);
  }

  /** Links, then two size words, then links: nothing else differs. */
  lemma FreeTouches(st: State, m0: Memory, m1: Memory, m2: Memory, m3: Memory, free: seq<nat>, x: nat, y: nat, a: nat)
    requires Shape(st) && x in st.heap.blocks && y in st.heap.blocks && x <= y
    requires (x in st.heap.free || x == a) && (y in st.heap.free || y == a)
    requires LinksOnly(m0, m1, st.heap.free)
    requires TwoWords(m1, m2, x, y + st.heap.blocks[y].size - x) && LinksOnly(m2, m3, free)
    requires forall i :: 0 <= i < |free| ==> free[i] in st.heap.blocks && (free[i] in st.heap.free || free[i] == a)
    ensures Touches(m0, m3, st.heap, a)
  {
    TouchLinks(st, m0, m1, st.heap.free, a);
    TouchWords(st, m1, m2, x, y, a);
    TouchLinks(st, m2, m3, free, a);
    TouchTrans(m0, m1, m2, st.heap, a);
    TouchTrans(m0, m2, m3, st.heap, a);
  }

  lemma LinksTrans(m: Memory, m1: Memory, m2: Memory, free: seq<nat>, free1: seq<nat>)
    requires LinksOnly(m, m1, free) && LinksOnly(m1, m2, free1) && forall x :: x in free1 ==> x in free
    ensures LinksOnly(m, m2, free)
  {
    forall x | 0 <= x < |m| && m2[x] != m[x]
      ensures exists i :: 0 <= i < |free| && (x == free[i] + 8 || x == free[i] + 12)
    {
      if m1[x] == m[x] {
        var k :| 0 <= k < |free1| && (x == free1[k] + 8 || x == free1[k] + 12);
        assert free1[k] in free1;
        var i :| 0 <= i < |free| && free[i] == free1[k];
      }
    }
  }

  lemma LinksSame(m: Memory, free: seq<nat>)
    ensures LinksOnly(m, m, free)
  {
  }

  /** Only words of free blocks and of a differ. */
  ghost predicate Touches(m: Memory, m': Memory, h: Heap, a: nat) {
    && |m'| == |m|
    && forall b, x {:trigger Inside(h.blocks, b, x)} ::
         Used(h, b) && b != a && Inside(h.blocks, b, x) && 0 <= x < |m| ==> m'[x] == m[x]
  }

  lemma TouchTrans(m: Memory, m1: Memory, m2: Memory, h: Heap, a: nat)
    requires Touches(m, m1, h, a) && Touches(m1, m2, h, a)
    ensures Touches(m, m2, h, a)
  {
  }

  lemma TouchLinks(st: State, m: Memory, m': Memory, free: seq<nat>, a: nat)
    requires Shape(st) && LinksOnly(m, m', free)
    requires forall i :: 0 <= i < |free| ==> free[i] in st.heap.blocks && (free[i] in st.heap.free || free[i] == a)
    ensures Touches(m, m', st.heap, a)
  {
    var h := st.heap;
    AllPlaced(st);
    forall b, x {:trigger Inside(h.blocks, b, x)} | Used(h, b) && b != a && Inside(h.blocks, b, x) && 0 <= x < |m|
      ensures m'[x] == m[x]
    {
      forall i | 0 <= i < |free| ensures x != free[i] + 8 && x != free[i] + 12 { Separate(h.blocks, b, free[i]); }
    }
  }

  /** The size words of a block that begins at x and ends with the block y. */
  lemma TouchWords(st: State, m: Memory, m': Memory, x: nat, y: nat, a: nat)
    requires Shape(st) && x in st.heap.blocks && y in st.heap.blocks && x <= y
    requires (x in st.heap.free || x == a) && (y in st.heap.free || y == a)
    requires TwoWords(m, m', x, y + st.heap.blocks[y].size - x)
    ensures Touches(m, m', st.heap, a)
  {
    var h := st.heap;
    AllPlaced(st);
    forall b, z {:trigger Inside(h.blocks, b, z)} | Used(h, b) && b != a && Inside(h.blocks, b, z) && 0 <= z < |m|
      ensures m'[z] == m[z]
    {
      Separate(h.blocks, b, x);
      Separate(h.blocks, b, y);
    }
  }

  /** What kfree needs of the neighbours of a. */
  ghost predicate TestsRight(m: Memory, h: Heap, a: nat) {
    && a in h.blocks && 4 <= a <= |m|
    && (a > h.end - HEAP_GROW ==> m[a - 4] <= a && (a - m[a - 4]) % 4 == 0 && a - m[a - 4] + 16 <= |m|)
    && (PrevAccepted(m, a, h.end) ==> PrevFound(m, a, h.end) in h.free)
    && Right(h, a, PrevFound(m, a, h.end), NextAccepted(m, a + h.blocks[a].size, h.end))
  }

  /** The heap with the block freed, from what the tests read. */
  ghost function FreedHeap(m: Memory, h: Heap, a: nat): (h': Heap)
    requires ListOk(h) && Used(h, a) && TestsRight(m, h, a)
    ensures h'.regions == h.regions && h'.end == h.end
  {
    FreeHeap(h, a, PrevFound(m, a, h.end), NextAccepted(m, a + h.blocks[a].size, h.end))
  }

  ghost predicate FreeDone(m: Memory, h: Heap, a: nat, m': Memory, h': Heap) {
    ListOk(h) && Used(h, a) && TestsRight(m, h, a) && h' == FreedHeap(m, h, a) && Touches(m, m', h, a)
  }

  lemma TestsReadable(st: State, m: Memory, a: nat)
    requires Shape(st) && Written(m, st.heap) && |m| == st.frames.total * PAGE_SIZE && a in st.heap.blocks
    ensures a + st.heap.blocks[a].size < st.heap.end ==> a + st.heap.blocks[a].size + 16 <= |m|
    ensures PrevAccepted(m, a, st.heap.end) && PrevFound(m, a, st.heap.end) in st.heap.free ==>
              PrevFound(m, a, st.heap.end) != 0
  {
    hide Written, Tiled, BlockOk, RegionOk, PrevAccepted;
    var h, p := st.heap, PrevFound(m, a, st.heap.end);
    NextReadable(st, a);
    if p in h.free { Placed(st, p); }
  }

  /** Behind a block there is another, or the end of a region, and then at least a page. */
  lemma NextReadable(st: State, a: nat)
    requires Shape(st) && a in st.heap.blocks
    ensures var n := a + st.heap.blocks[a].size; n < st.heap.end ==> n + 16 <= st.frames.total * PAGE_SIZE
  {
    IsOk(st.heap, a);
    var n, region := a + st.heap.blocks[a].size, st.heap.blocks[a].region;
    hide Tiled;
    if n in st.heap.blocks {
      Placed(st, n);
    } else if n < st.heap.end {
      assert RegionOk(region, st.heap.regions[region], st.frames);
      NextPage(n, st.heap.end);
    }
  }

  lemma NextPage(x: nat, y: nat)
    requires x % PAGE_SIZE == 0 && y % PAGE_SIZE == 0 && x < y
    ensures x + PAGE_SIZE <= y
  {
    assert x == PAGE_SIZE * (x / PAGE_SIZE) && y == PAGE_SIZE * (y / PAGE_SIZE);
  }

  lemma BothListed(h: Heap, p: nat, a: nat, n: nat)
    requires ListOk(h) && p in h.free && n in h.free && a !in h.free
    requires Adjoins(h.blocks, p, a) && Adjoins(h.blocks, a, n)
    requires Apart(h.blocks)
    ensures n in Remove(h.free, p) && n in Merge(h.blocks, p, a)
  {
    RemoveIs(h.free, p);
  }

  lemma SplitReads(st: State, m: Memory, i: nat)
    requires Shape(st) && Written(m, st.heap) && |m| == st.frames.total * PAGE_SIZE && i < |st.heap.free|
    ensures var a, free := st.heap.free[i], st.heap.free;
            && a != 0 && a + st.heap.blocks[a].size <= |m| && st.heap.blocks[a].size >= 32
            && m[a] == st.heap.blocks[a].size && m[a + 8] == At(free, i + 1) && m[a + 12] == At(free, i - 1)
            && At(free, i + 1) + 16 <= |m| && At(free, i - 1) + 16 <= |m|
            && (At(free, 0) == a <==> At(free, i - 1) == 0) && (At(free, 0) == a <==> i == 0)
            && (At(free, i + 1) != 0 ==> At(free, i + 1) + 16 <= a || a + m[a] <= At(free, i + 1))
            && (At(free, i - 1) != 0 ==> At(free, i - 1) + 16 <= a || a + m[a] <= At(free, i - 1))
  {
    var a, free := st.heap.free[i], st.heap.free;
    AllPlaced(st);
    assert StampedAt(m, st.heap.blocks, a) && LinkedAt(m, free, i);
    if i + 1 < |free| { Separate(st.heap.blocks, a, free[i + 1]); }
    if i > 0 { Separate(st.heap.blocks, a, free[i - 1]); }
  }

  lemma SplitIsWritten(st: State, m: Memory, m': Memory, i: nat, needed: nat)
    requires Shape(st) && Written(m, st.heap) && |m| == st.frames.total * PAGE_SIZE && Splits(st.heap, i, needed)
    requires var a, free := st.heap.free[i], st.heap.free;
             && a + st.heap.blocks[a].size <= |m| && At(free, i + 1) + 16 <= |m| && At(free, i - 1) + 16 <= |m|
             && SplitWrites(m, m', a, st.heap.blocks[a].size, needed, At(free, i + 1), At(free, i - 1))
    ensures Shape(st.(heap := Split(st.heap, i, needed))) && Written(m', Split(st.heap, i, needed))
    ensures KeepsUse(m, m', st.heap)
    ensures At(Split(st.heap, i, needed).free, 0) == if i == 0 then st.heap.free[0] + needed else At(st.heap.free, 0)
  {
    AllPlaced(st);
    SplitIsWell(m, m', st.heap, i, needed);
    SplitKeepsTiling(st.heap, i, needed);
    SplitKeepsList(st.heap, i, needed);
    SplitKeepsUse(st, m, m', i, needed);
  }

  lemma SplitKeepsUse(st: State, m: Memory, m': Memory, i: nat, needed: nat)
    requires Shape(st) && |m| == st.frames.total * PAGE_SIZE && Splits(st.heap, i, needed)
    requires var a, free := st.heap.free[i], st.heap.free;
             && a + st.heap.blocks[a].size <= |m| && At(free, i + 1) + 16 <= |m| && At(free, i - 1) + 16 <= |m|
             && SplitWrites(m, m', a, st.heap.blocks[a].size, needed, At(free, i + 1), At(free, i - 1))
    ensures KeepsUse(m, m', st.heap)
  {
    var h := st.heap;
    AllPlaced(st);
    forall b, x {:trigger Inside(h.blocks, b, x)} | Used(h, b) && Inside(h.blocks, b, x) && 0 <= x < |m|
      ensures m'[x] == m[x]
    {
      Separate(h.blocks, b, h.free[i]);
      if i + 1 < |h.free| { Separate(h.blocks, b, h.free[i + 1]); }
      if i > 0 { Separate(h.blocks, b, h.free[i - 1]); }
    }
  }
}
