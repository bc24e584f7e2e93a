/**
  The kernel heap as blocks, free list and regions, without its memory (src/memory/kmalloc.cpp). The class of
  KernelHeap.dfy keeps all of this in headers, footers and links; here are the shape that it must have and
  what kmalloc and kfree do to it.
 */
module HeapModel {

  import opened FrameAllocator

  const HEADER_SIZE: nat := 16
  const OVERHEAD: nat := 20           // header and footer
  const MIN_BLOCK: nat := 32
  const GROW_PAGES: nat := 16
  const HEAP_GROW: nat := 65536

  /** A block's size and the start of the region it was cut from. */
  datatype Block = Block(size: nat, region: nat)

  /** Blocks by address, the free list in order, regions as start and end, and the heap_end pointer. */
  datatype Heap = Heap(blocks: map<nat, Block>, free: seq<nat>, regions: map<nat, nat>, end: nat)

  datatype State = State(heap: Heap, frames: Frames)

  // ---------- The shape ----------

  ghost predicate BlockOk(blocks: map<nat, Block>, regions: map<nat, nat>, a: nat)
    requires a in blocks
  {
    var b := blocks[a];
    && a % 4 == 0 && b.size % 4 == 0 && b.size >= MIN_BLOCK
    && b.region in regions && b.region <= a && a + b.size <= regions[b.region]
    && (a + b.size == regions[b.region] || (a + b.size in blocks && blocks[a + b.size].region == b.region))
  }

  ghost predicate Follows(blocks: map<nat, Block>, a: nat, b: nat)
    requires a in blocks
  {
    a + blocks[a].size <= b
  }

  ghost predicate Apart(blocks: map<nat, Block>) {
    forall a, b {:trigger Follows(blocks, a, b)} :: a in blocks && b in blocks && a < b ==> Follows(blocks, a, b)
  }

  ghost predicate AllOk(blocks: map<nat, Block>, regions: map<nat, nat>) {
    forall a {:trigger BlockOk(blocks, regions, a)} :: a in blocks ==> BlockOk(blocks, regions, a)
  }

  ghost predicate Begun(blocks: map<nat, Block>, regions: map<nat, nat>) {
    forall s :: s in regions ==> s in blocks && blocks[s].region == s
  }

  /** Every region begins with a block, every block ends where the next one or its region does, none overlap. */
  ghost predicate Tiled(h: Heap) {
    Apart(h.blocks) && AllOk(h.blocks, h.regions) && Begun(h.blocks, h.regions)
  }

  ghost predicate Listed(h: Heap) {
    forall i :: 0 <= i < |h.free| ==> h.free[i] in h.blocks
  }

  ghost predicate ListOk(h: Heap) {
    Listed(h) && forall i, j :: 0 <= i < j < |h.free| ==> h.free[i] != h.free[j]
  }

  /** A region consists of whole frames that the frame allocator has handed out. */
  ghost predicate RegionOk(s: nat, e: nat, fr: Frames) {
    && PAGE_SIZE <= s < e && s % PAGE_SIZE == 0 && e % PAGE_SIZE == 0 && e <= fr.total * PAGE_SIZE
    && forall f: nat {:trigger f in fr.held} :: s <= f * PAGE_SIZE < e ==> f in fr.held
  }

  ghost predicate RegionsApart(regions: map<nat, nat>) {
    forall s, t :: s in regions && t in regions && s < t ==> regions[s] <= t
  }

  ghost predicate Shape(st: State) {
    && Tiled(st.heap) && ListOk(st.heap) && RegionsApart(st.heap.regions)
    && 0 in st.frames.held && Sound(st.frames)
    && st.heap.end % PAGE_SIZE == 0 && st.heap.end <= st.frames.total * PAGE_SIZE
    && forall s :: s in st.heap.regions ==> RegionOk(s, st.heap.regions[s], st.frames)
  }

  ghost predicate Used(h: Heap, a: nat) { a in h.blocks && a !in h.free }

  /** Tiling means coverage: every address of a region lies in a block of that region. */
  lemma {:induction false} Covered(h: Heap, s: nat, x: nat, from: nat) returns (a: nat)
    requires Tiled(h) && RegionsApart(h.regions)
    requires s in h.regions && from in h.blocks && h.blocks[from].region == s && from <= x < h.regions[s]
    ensures a in h.blocks && h.blocks[a].region == s && a <= x < a + h.blocks[a].size
    decreases h.regions[s] - from
  {
    assert BlockOk(h.blocks, h.regions, from);
    if x < from + h.blocks[from].size {
      a := from;
    } else {
      a := Covered(h, s, x, from + h.blocks[from].size);
    }
  }

  // ---------- kmalloc ----------

  const WORD: nat := 0x1_0000_0000

  /** The block size for a request, in 32-bit arithmetic. */
  function Needed(size: nat): nat
    requires size < WORD
  {
    var up := (size + 7) % WORD;
    var needed := (up - up % 8 + OVERHEAD) % WORD;
    if needed < MIN_BLOCK then MIN_BLOCK else needed
  }

  lemma Aligned(x: nat)
    ensures 4 * x % 4 == 0
  {
  }

  lemma NeededBelow(size: nat, q: nat, r: nat)
    requires size <= 0xFFFFFFE8 && size + 7 == 8 * q + r && r < 8
    ensures Needed(size) == if 8 * q + OVERHEAD < MIN_BLOCK then MIN_BLOCK else 4 * (2 * q + 5)
  {
    assert (size + 7) % WORD == size + 7 && (size + 7) % 8 == r;
    assert (8 * q + OVERHEAD) % WORD == 8 * q + OVERHEAD;
  }

  lemma NeededAbove(size: nat, q: nat, r: nat)
    requires 0xFFFFFFE8 < size < WORD && size + 7 == 8 * q + r && r < 8
    ensures Needed(size) == MIN_BLOCK
  {
    assert q == 0x1FFFFFFE || q == 0x1FFFFFFF || q == 0x20000000;
  }

  /** The block is large enough exactly for the sizes whose rounding does not wrap; it is never much larger. */
  lemma NeededIsEnough(size: nat)
    requires size < WORD
    ensures Needed(size) >= size + OVERHEAD <==> size <= 0xFFFFFFE8
    ensures Needed(size) % 4 == 0 && Needed(size) >= MIN_BLOCK
    ensures Needed(size) == MIN_BLOCK || Needed(size) <= size + OVERHEAD + 7
  {
    hide Needed;
    var q, r := (size + 7) / 8, (size + 7) % 8;
    Aligned(2 * q + 5);
    if size <= 0xFFFFFFE8 { NeededBelow(size, q, r); } else { NeededAbove(size, q, r); }
  }

  /** The first free block of at least this size, from place i of the list on. */
  ghost function FirstFit(h: Heap, needed: nat, i: nat): (r: nat)
    requires i <= |h.free| && Listed(h)
    ensures i <= r <= |h.free|
    ensures forall k :: i <= k < r ==> h.blocks[h.free[k]].size < needed
    ensures r < |h.free| ==> h.blocks[h.free[r]].size >= needed
    decreases |h.free| - i
  {
    if i == |h.free| || h.blocks[h.free[i]].size >= needed then i else FirstFit(h, needed, i + 1)
  }

  function Without(free: seq<nat>, i: nat): seq<nat>
    requires i < |free|
  {
    free[..i] + free[i + 1..]
  }

  /** The front of the i-th free block is taken; the rest stays free in its place of the list. */
  function Split(h: Heap, i: nat, needed: nat): Heap
    requires i < |h.free| && h.free[i] in h.blocks && h.blocks[h.free[i]].size >= needed
  {
    var a := h.free[i];
    var b := h.blocks[a];
    h.(blocks := h.blocks[a := Block(needed, b.region)][a + needed := Block(b.size - needed, b.region)],
       free := h.free[i := a + needed])
  }

  function Carve(h: Heap, i: nat, needed: nat): Heap
    requires i < |h.free| && h.free[i] in h.blocks && h.blocks[h.free[i]].size >= needed
  {
    if h.blocks[h.free[i]].size - needed >= MIN_BLOCK then Split(h, i, needed)
    else h.(free := Without(h.free, i))
  }

  /** A new region, one free block at the end of the list. */
  function AddRegion(h: Heap, start: nat, size: nat): Heap {
    Heap(h.blocks[start := Block(size, start)], h.free + [start], h.regions[start := start + size], start + size)
  }

  /** Takes pages as long as they follow first; the flag says whether all did. */
  function TakeRun(fr: Frames, first: nat, i: nat): (Frames, bool)
    decreases GROW_PAGES - i
  {
    if i >= GROW_PAGES then (fr, true)
    else
      var page, fr' := TakeResult(fr), TakeState(fr);
      if page == 0 then (fr', false)
      else if page != first + i * PAGE_SIZE then (GiveState(fr', page), false)
      else TakeRun(fr', first, i + 1)
  }

  /** One region per page. */
  ghost function TakeSingles(st: State, i: nat): (r: State)
    ensures Listed(st.heap) ==> Listed(r.heap)
    decreases GROW_PAGES - i
  {
    if i >= GROW_PAGES || TakeResult(st.frames) == 0 then st
    else TakeSingles(State(AddRegion(st.heap, TakeResult(st.frames), PAGE_SIZE), TakeState(st.frames)), i + 1)
  }

  ghost function GrowState(st: State): (r: State)
    ensures Listed(st.heap) ==> Listed(r.heap)
  {
    var first := TakeResult(st.frames);
    if first == 0 then st
    else
      var (fr, contiguous) := TakeRun(TakeState(st.frames), first, 1);
      if contiguous then State(AddRegion(st.heap, first, HEAP_GROW), fr)
      else TakeSingles(State(st.heap, fr), 0)
  }

  /** What is done with the list once it holds a block that fits, or does not. */
  ghost function ServeState(st: State, needed: nat): State
    requires Listed(st.heap)
  {
    var i := FirstFit(st.heap, needed, 0);
    if i < |st.heap.free| then st.(heap := Carve(st.heap, i, needed)) else st
  }

  ghost function ServeResult(st: State, needed: nat): nat
    requires Listed(st.heap)
  {
    var i := FirstFit(st.heap, needed, 0);
    if i < |st.heap.free| then st.heap.free[i] + HEADER_SIZE else 0
  }

  /** The heap grows only when no free block fits. */
  ghost function Ready(st: State, needed: nat): (r: State)
    requires Listed(st.heap)
    ensures Listed(r.heap)
  {
    if FirstFit(st.heap, needed, 0) < |st.heap.free| then st else GrowState(st)
  }

  ghost function MallocState(st: State, size: nat): State
    requires Listed(st.heap) && size < WORD
  {
    if size == 0 then st else ServeState(Ready(st, Needed(size)), Needed(size))
  }

  ghost function MallocResult(st: State, size: nat): nat
    requires Listed(st.heap) && size < WORD
  {
    if size == 0 then 0 else ServeResult(Ready(st, Needed(size)), Needed(size))
  }

  // ---------- The shape is kept ----------

  lemma Separate(blocks: map<nat, Block>, a: nat, b: nat)
    requires Apart(blocks) && a in blocks && b in blocks
    ensures a == b || a + blocks[a].size <= b || b + blocks[b].size <= a
  {
    assert a < b ==> Follows(blocks, a, b);
    assert b < a ==> Follows(blocks, b, a);
  }

  ghost predicate Splits(h: Heap, i: nat, needed: nat) {
    && Tiled(h) && ListOk(h) && i < |h.free| && needed % 4 == 0 && needed >= MIN_BLOCK
    && h.blocks[h.free[i]].size - needed >= MIN_BLOCK
  }

  /** The cut is no block's address yet. */
  lemma CutIsNew(h: Heap, i: nat, needed: nat)
    requires Splits(h, i, needed)
    ensures h.free[i] + needed !in h.blocks
  {
    var c := h.free[i] + needed;
    if c in h.blocks { Separate(h.blocks, h.free[i], c); }
  }

  lemma SplitKeepsApart(h: Heap, i: nat, needed: nat)
    requires Splits(h, i, needed)
    ensures Apart(Split(h, i, needed).blocks)
  {
    var a := h.free[i];
    var blocks := Split(h, i, needed).blocks;
    forall x, y | x in blocks && y in blocks && x < y ensures Follows(blocks, x, y) {
      if x in h.blocks { Separate(h.blocks, a, x); }
      if y in h.blocks { Separate(h.blocks, a, y); }
      if x in h.blocks && y in h.blocks { Separate(h.blocks, x, y); }
    }
  }

  lemma SplitBlockOk(h: Heap, i: nat, needed: nat, x: nat)
    requires Splits(h, i, needed) && x in Split(h, i, needed).blocks
    ensures BlockOk(Split(h, i, needed).blocks, h.regions, x)
  {
    CutIsNew(h, i, needed);
    var a := h.free[i];
    assert BlockOk(h.blocks, h.regions, if x == a + needed then a else x);
  }

  lemma SplitKeepsOk(h: Heap, i: nat, needed: nat)
    requires Splits(h, i, needed)
    ensures AllOk(Split(h, i, needed).blocks, h.regions)
  {
    hide BlockOk, Split, Apart, Begun;
    forall x | x in Split(h, i, needed).blocks ensures BlockOk(Split(h, i, needed).blocks, h.regions, x) {
      SplitBlockOk(h, i, needed, x);
    }
  }

  lemma SplitKeepsBegun(h: Heap, i: nat, needed: nat)
    requires Splits(h, i, needed)
    ensures Begun(Split(h, i, needed).blocks, h.regions)
  {
    CutIsNew(h, i, needed);
    hide BlockOk, Apart, ListOk, AllOk;
  }

  lemma SplitKeepsTiling(h: Heap, i: nat, needed: nat)
    requires Splits(h, i, needed)
    ensures Tiled(Split(h, i, needed))
  {
    SplitKeepsApart(h, i, needed);
    SplitKeepsOk(h, i, needed);
    SplitKeepsBegun(h, i, needed);
    hide Apart, AllOk, Begun, ListOk;
  }

  lemma SplitKeepsList(h: Heap, i: nat, needed: nat)
    requires Splits(h, i, needed)
    ensures ListOk(Split(h, i, needed))
  {
    CutIsNew(h, i, needed);
    hide BlockOk, Apart, AllOk, Begun;
  }

  lemma CarveKeepsTiling(h: Heap, i: nat, needed: nat)
    requires Tiled(h) && ListOk(h) && i < |h.free| && h.blocks[h.free[i]].size >= needed
    requires needed % 4 == 0 && needed >= MIN_BLOCK
    ensures Tiled(Carve(h, i, needed)) && ListOk(Carve(h, i, needed))
  {
    if h.blocks[h.free[i]].size - needed >= MIN_BLOCK {
      SplitKeepsTiling(h, i, needed);
      SplitKeepsList(h, i, needed);
    }
  }

  /** h' has the blocks of h in use, unchanged, and a beside them. */
  ghost predicate OneMoreUsed(h: Heap, h': Heap, a: nat) {
    && Used(h', a) && !Used(h, a)
    && (forall x :: Used(h, x) ==> Used(h', x) && h'.blocks[x] == h.blocks[x])
    && (forall x :: Used(h', x) ==> Used(h, x) || x == a)
  }

  lemma InWithout(free: seq<nat>, i: nat, x: nat)
    requires i < |free| && forall k, j :: 0 <= k < j < |free| ==> free[k] != free[j]
    ensures x in Without(free, i) <==> x in free && x != free[i]
  {
    if x in free && x != free[i] {
      var k :| 0 <= k < |free| && free[k] == x;
      assert Without(free, i)[if k < i then k else k - 1] == x;
    }
  }

  lemma CarveUses(h: Heap, i: nat, needed: nat)
    requires Tiled(h) && ListOk(h) && i < |h.free| && h.blocks[h.free[i]].size >= needed
    requires needed % 4 == 0 && needed >= MIN_BLOCK
    ensures OneMoreUsed(h, Carve(h, i, needed), h.free[i])
    ensures needed <= Carve(h, i, needed).blocks[h.free[i]].size < needed + MIN_BLOCK
  {
    var a := h.free[i];
    if h.blocks[a].size - needed >= MIN_BLOCK {
      CutIsNew(h, i, needed);
      var h' := Split(h, i, needed);
      assert h'.free[i] == a + needed;
      forall x | x != a && x != a + needed ensures x in h'.free <==> x in h.free {
        if x in h.free {
          var k :| 0 <= k < |h.free| && h.free[k] == x;
          assert h'.free[k] == x;
        }
      }
    } else {
      forall x ensures x in Without(h.free, i) <==> x in h.free && x != a { InWithout(h.free, i, x); }
    }
  }

  // ---------- Growth ----------

  /** fr' has all the frames of fr, and of the same machine. */
  ghost predicate Extends(fr: Frames, fr': Frames) {
    fr'.total == fr.total && fr.held <= fr'.held && Sound(fr')
  }

  ghost predicate NewRegion(fr: Frames, s: nat, e: nat) {
    forall f: nat {:trigger f in fr.held} :: s <= f * PAGE_SIZE < e ==> f !in fr.held
  }

  lemma OldRegionKept(s: nat, e: nat, fr: Frames, fr': Frames)
    requires RegionOk(s, e, fr) && Extends(fr, fr')
    ensures RegionOk(s, e, fr')
  {
    forall f: nat | s <= f * PAGE_SIZE < e ensures f in fr'.held { assert f in fr.held; }
  }

  lemma NewRegionIsApart(s: nat, e: nat, t: nat, u: nat, fr: Frames)
    requires RegionOk(s, e, fr) && NewRegion(fr, t, u) && t < u && t % PAGE_SIZE == 0
    ensures e <= t || u <= s
  {
    assert t / PAGE_SIZE * PAGE_SIZE == t && t / PAGE_SIZE !in fr.held;
    assert s / PAGE_SIZE * PAGE_SIZE == s && s / PAGE_SIZE in fr.held;
  }

  lemma IsOk(h: Heap, a: nat)
    requires Tiled(h) && a in h.blocks
    ensures BlockOk(h.blocks, h.regions, a)
  {
  }

  lemma AddRegionKeepsTiling(h: Heap, start: nat, size: nat)
    requires Tiled(h) && ListOk(h) && size >= MIN_BLOCK && start % 4 == 0 && size % 4 == 0
    requires Outside(h, start, size)
    ensures start !in h.blocks
    ensures Tiled(AddRegion(h, start, size)) && ListOk(AddRegion(h, start, size))
  {
    var h' := AddRegion(h, start, size);
    if start in h.blocks { IsOk(h, start); }
    assert start !in h.regions;
    forall x | x in h'.blocks ensures BlockOk(h'.blocks, h'.regions, x) {
      if x != start { assert BlockOk(h.blocks, h.regions, x); }
    }
    forall x, y | x in h'.blocks && y in h'.blocks && x < y ensures Follows(h'.blocks, x, y) {
      if x in h.blocks { assert BlockOk(h.blocks, h.regions, x); }
      if y in h.blocks { assert BlockOk(h.blocks, h.regions, y); }
      if x in h.blocks && y in h.blocks { Separate(h.blocks, x, y); }
    }
  }

  ghost predicate Outside(h: Heap, start: nat, size: nat) {
    forall s :: s in h.regions ==> h.regions[s] <= start || start + size <= s
  }

  lemma RegionJoins(st: State, start: nat, size: nat)
    requires Shape(st) && size >= MIN_BLOCK && size % 4 == 0
    requires RegionOk(start, start + size, st.frames) && Outside(st.heap, start, size)
    ensures Shape(State(AddRegion(st.heap, start, size), st.frames))
    ensures start !in st.heap.blocks && SameUse(st.heap, AddRegion(st.heap, start, size))
  {
    hide Tiled, ListOk, SameUse, RegionOk, RegionsApart, Outside;
    RegionBounds(start, start + size, st.frames);
    AddRegionKeepsTiling(st.heap, start, size);
    AddRegionKeepsUse(st.heap, start, size);
    RegionsStayApart(st, start, size);
  }

  lemma RegionBounds(s: nat, e: nat, fr: Frames)
    requires RegionOk(s, e, fr)
    ensures s % 4 == 0 && e % PAGE_SIZE == 0 && e <= fr.total * PAGE_SIZE
  {
    PagesAreAligned(s);
  }

  lemma PagesAreAligned(s: nat)
    requires s % PAGE_SIZE == 0
    ensures s % 4 == 0
  {
    assert s == 4 * (1024 * (s / PAGE_SIZE));
  }

  lemma RegionsStayApart(st: State, start: nat, size: nat)
    requires Shape(st) && size > 0 && Outside(st.heap, start, size)
    ensures RegionsApart(AddRegion(st.heap, start, size).regions)
  {
    hide Tiled, ListOk;
    assert forall s :: s in st.heap.regions ==> s < st.heap.regions[s];
    hide RegionOk, Shape;
  }

  lemma AddRegionKeepsUse(h: Heap, start: nat, size: nat)
    requires start !in h.blocks
    ensures SameUse(h, AddRegion(h, start, size))
  {
    assert AddRegion(h, start, size).free[|h.free|] == start;
  }

  lemma NewIsOutside(st: State, start: nat, size: nat)
    requires Shape(st) && NewRegion(st.frames, start, start + size) && size > 0 && start % PAGE_SIZE == 0
    ensures Outside(st.heap, start, size)
  {
    forall s | s in st.heap.regions ensures st.heap.regions[s] <= start || start + size <= s {
      NewRegionIsApart(s, st.heap.regions[s], start, start + size, st.frames);
    }
  }

  lemma AddRegionKeepsShape(st: State, start: nat, size: nat, fr': Frames)
    requires Shape(st) && Extends(st.frames, fr') && size >= MIN_BLOCK && size % 4 == 0
    requires RegionOk(start, start + size, fr') && NewRegion(st.frames, start, start + size)
    ensures Shape(State(AddRegion(st.heap, start, size), fr'))
    ensures SameUse(st.heap, AddRegion(st.heap, start, size))
  {
    NewIsOutside(st, start, size);
    MoreFramesKeepShape(st, fr');
    RegionJoins(State(st.heap, fr'), start, size);
  }

  ghost predicate SameUse(h: Heap, h': Heap) {
    && (forall x :: Used(h, x) ==> Used(h', x) && h'.blocks[x] == h.blocks[x])
    && (forall x :: Used(h', x) ==> Used(h, x))
  }

  /** The frames first up to i pages on have been taken since fr0. */
  ghost predicate RunTaken(fr0: Frames, fr: Frames, first: nat, i: nat) {
    && Extends(fr0, fr) && PAGE_SIZE <= first && first % PAGE_SIZE == 0 && first + i * PAGE_SIZE <= fr.total * PAGE_SIZE
    && NewRegion(fr0, first, first + i * PAGE_SIZE)
    && forall f: nat {:trigger f in fr.held} :: first <= f * PAGE_SIZE < first + i * PAGE_SIZE ==> f in fr.held
  }

  lemma TakenIsNew(fr: Frames)
    requires Sound(fr) && 0 in fr.held && TakeResult(fr) != 0
    ensures Extends(fr, TakeState(fr)) && RunTaken(fr, TakeState(fr), TakeResult(fr), 1)
  {
  }

  lemma {:induction false} RunIsTaken(fr0: Frames, fr: Frames, first: nat, i: nat)
    requires RunTaken(fr0, fr, first, i) && i <= GROW_PAGES && 0 in fr0.held
    ensures var (fr', contiguous) := TakeRun(fr, first, i);
            Extends(fr0, fr') && (contiguous ==> RunTaken(fr0, fr', first, GROW_PAGES))
    decreases GROW_PAGES - i
  {
    if i < GROW_PAGES && TakeResult(fr) != 0 {
      TakenIsNew(fr);
      if TakeResult(fr) == first + i * PAGE_SIZE {
        RunIsTaken(fr0, TakeState(fr), first, i + 1);
      }
    }
  }

  lemma {:induction false} SinglesKeepShape(st: State, i: nat)
    requires Shape(st)
    ensures Shape(TakeSingles(st, i)) && SameUse(st.heap, TakeSingles(st, i).heap)
    ensures Extends(st.frames, TakeSingles(st, i).frames)
    decreases GROW_PAGES - i
  {
    if i < GROW_PAGES && TakeResult(st.frames) != 0 {
      var page, fr' := TakeResult(st.frames), TakeState(st.frames);
      TakenIsNew(st.frames);
      AddRegionKeepsShape(st, page, PAGE_SIZE, fr');
      SinglesKeepShape(State(AddRegion(st.heap, page, PAGE_SIZE), fr'), i + 1);
    }
  }

  lemma MoreFramesKeepShape(st: State, fr': Frames)
    requires Shape(st) && Extends(st.frames, fr')
    ensures Shape(State(st.heap, fr'))
  {
    forall s | s in st.heap.regions ensures RegionOk(s, st.heap.regions[s], fr') {
      OldRegionKept(s, st.heap.regions[s], st.frames, fr');
    }
  }

  /** Growing, in one region or in single pages, keeps the shape and leaves every block in use alone. */
  lemma GrowKeepsShape(st: State)
    requires Shape(st)
    ensures Shape(GrowState(st)) && SameUse(st.heap, GrowState(st).heap)
  {
    hide TakeRun, TakeSingles, Tiled, ListOk;
    var first := TakeResult(st.frames);
    if first != 0 {
      TakenIsNew(st.frames);
      RunIsTaken(st.frames, TakeState(st.frames), first, 1);
      var (fr, contiguous) := TakeRun(TakeState(st.frames), first, 1);
      if contiguous {
        AddRegionKeepsShape(st, first, HEAP_GROW, fr);
      } else {
        MoreFramesKeepShape(st, fr);
        SinglesKeepShape(State(st.heap, fr), 0);
      }
    }
  }

  lemma ServeKeepsShape(st: State, needed: nat)
    requires Shape(st) && needed % 4 == 0 && needed >= MIN_BLOCK
    ensures Shape(ServeState(st, needed))
    ensures var r := ServeResult(st, needed); var h' := ServeState(st, needed).heap;
            if r == 0 then h' == st.heap
            else && r >= HEADER_SIZE && OneMoreUsed(st.heap, h', r - HEADER_SIZE)
                 && needed <= h'.blocks[r - HEADER_SIZE].size < needed + MIN_BLOCK
  {
    var i := FirstFit(st.heap, needed, 0);
    if i < |st.heap.free| {
      CarveKeepsTiling(st.heap, i, needed);
      CarveUses(st.heap, i, needed);
    }
  }

  /**
    kmalloc keeps the shape. It fails without changing any block in use, or it puts one more block into use,
    large enough for the request unless the request wraps, and less than a smallest block larger than needed; the
    returned address is 4-byte aligned.
   */
  lemma MallocKeepsShape(st: State, size: nat)
    requires Shape(st) && size < WORD
    ensures Shape(MallocState(st, size))
    ensures var r := MallocResult(st, size); var h' := MallocState(st, size).heap;
            if r == 0 then SameUse(st.heap, h')
            else && r >= HEADER_SIZE && r % 4 == 0 && OneMoreUsed(st.heap, h', r - HEADER_SIZE)
                 && (size <= 0xFFFFFFE8 ==> h'.blocks[r - HEADER_SIZE].size >= size + OVERHEAD)
                 && h'.blocks[r - HEADER_SIZE].size < Needed(size) + MIN_BLOCK < size + 64
  {
    hide Tiled, Needed, GrowState, ServeState, ServeResult, RegionOk, FirstFit;
    if size != 0 {
      NeededIsEnough(size);
      GrowKeepsShape(st);
      var needed := Needed(size);
      var st1 := Ready(st, needed);
      ServeKeepsShape(st1, needed);
      var r := ServeResult(st1, needed);
      if r != 0 { IsOk(ServeState(st1, needed).heap, r - HEADER_SIZE); }
    }
  }

  // ---------- kfree ----------

  /** The block that begins where x ends belongs to the same region. */
  ghost predicate Adjoins(blocks: map<nat, Block>, x: nat, y: nat) {
    x in blocks && y in blocks && x + blocks[x].size == y && blocks[x].region == blocks[y].region && y != x
  }

  function Merge(blocks: map<nat, Block>, x: nat, y: nat): map<nat, Block>
    requires x in blocks && y in blocks
  {
    (blocks - {y})[x := Block(blocks[x].size + blocks[y].size, blocks[x].region)]
  }

  lemma MergeKeepsTiling(h: Heap, x: nat, y: nat)
    requires Tiled(h) && Adjoins(h.blocks, x, y)
    ensures Tiled(h.(blocks := Merge(h.blocks, x, y)))
  {
    var h' := h.(blocks := Merge(h.blocks, x, y));
    IsOk(h, x);
    IsOk(h, y);
    forall z | z in h'.blocks ensures BlockOk(h'.blocks, h'.regions, z) {
      IsOk(h, z);
      Separate(h.blocks, z, y);
      Separate(h.blocks, z, x);
    }
    forall z, w | z in h'.blocks && w in h'.blocks && z < w ensures Follows(h'.blocks, z, w) {
      Separate(h.blocks, z, w);
      Separate(h.blocks, w, y);
    }
  }

  /** The list without x, which it holds once. */
  ghost function Remove(free: seq<nat>, x: nat): (r: seq<nat>)
    requires x in free
  {
    var i :| 0 <= i < |free| && free[i] == x;
    Without(free, i)
  }

  ghost predicate Distinct(free: seq<nat>) {
    forall i, j :: 0 <= i < j < |free| ==> free[i] != free[j]
  }

  lemma RemoveIs(free: seq<nat>, x: nat)
    requires x in free && Distinct(free)
    ensures Distinct(Remove(free, x))
    ensures forall y :: y in Remove(free, x) <==> y in free && y != x
    ensures forall i :: 0 <= i < |free| && free[i] == x ==> Remove(free, x) == Without(free, i)
  {
    var i :| 0 <= i < |free| && free[i] == x && Remove(free, x) == Without(free, i);
    forall y ensures y in Without(free, i) <==> y in free && y != x { InWithout(free, i, y); }
  }

  /** Freed between two free neighbours, all three become one block at the end of the list. */
  ghost function FreeBoth(h: Heap, p: nat, a: nat): Heap
    requires p in h.free && p in h.blocks && a in h.blocks && a + h.blocks[a].size in Remove(h.free, p)
    requires a + h.blocks[a].size in Merge(h.blocks, p, a)
  {
    var n := a + h.blocks[a].size;
    h.(blocks := Merge(Merge(h.blocks, p, a), p, n), free := Remove(Remove(h.free, p), n) + [p])
  }

  ghost function FreeNext(h: Heap, a: nat): Heap
    requires a in h.blocks && a + h.blocks[a].size in h.blocks && a + h.blocks[a].size in h.free
  {
    var n := a + h.blocks[a].size;
    h.(blocks := Merge(h.blocks, a, n), free := Remove(h.free, n) + [a])
  }

  /** Merged with the previous block only: that block leaves the list and does not come back. */
  ghost function FreePrev(h: Heap, p: nat, a: nat): Heap
    requires p in h.free && p in h.blocks && a in h.blocks
  {
    h.(blocks := Merge(h.blocks, p, a), free := Remove(h.free, p))
  }

  function FreePlain(h: Heap, a: nat): Heap {
    h.(free := h.free + [a])
  }

  /** Bytes in the free blocks. */
  ghost function Bytes(blocks: map<nat, Block>, free: seq<nat>): nat
    requires forall i :: 0 <= i < |free| ==> free[i] in blocks
  {
    if free == [] then 0 else Bytes(blocks, free[..|free| - 1]) + blocks[free[|free| - 1]].size
  }

  ghost function FreeBytes(h: Heap): nat
    requires Listed(h)
  {
    Bytes(h.blocks, h.free)
  }

  lemma {:induction false} BytesSame(b: map<nat, Block>, b': map<nat, Block>, free: seq<nat>)
    requires forall i :: 0 <= i < |free| ==> free[i] in b && free[i] in b' && b[free[i]].size == b'[free[i]].size
    ensures Bytes(b, free) == Bytes(b', free)
  {
    if free != [] { BytesSame(b, b', free[..|free| - 1]); }
  }

  lemma {:induction false} BytesWithout(b: map<nat, Block>, free: seq<nat>, i: nat)
    requires i < |free| && forall i :: 0 <= i < |free| ==> free[i] in b
    ensures Bytes(b, free) == Bytes(b, Without(free, i)) + b[free[i]].size
  {
    var last := |free| - 1;
    if i < last {
      BytesWithout(b, free[..last], i);
      assert Without(free, i)[..last - 1] == Without(free[..last], i);
    } else {
      assert Without(free, i) == free[..last];
    }
  }

  lemma BytesAppend(b: map<nat, Block>, free: seq<nat>, x: nat)
    requires x in b && forall i :: 0 <= i < |free| ==> free[i] in b
    ensures Bytes(b, free + [x]) == Bytes(b, free) + b[x].size
  {
    assert (free + [x])[..|free|] == free;
  }

  lemma BytesRemove(b: map<nat, Block>, free: seq<nat>, x: nat)
    requires x in free && Distinct(free) && forall i :: 0 <= i < |free| ==> free[i] in b
    ensures forall i :: 0 <= i < |Remove(free, x)| ==> Remove(free, x)[i] in b
    ensures Bytes(b, free) == Bytes(b, Remove(free, x)) + b[x].size
  {
    RemoveIs(free, x);
    var i :| 0 <= i < |free| && free[i] == x && Remove(free, x) == Without(free, i);
    BytesWithout(b, free, i);
  }

  /** h' has every block in use of h but a, unchanged, and no other. */
  ghost predicate OneLessUsed(h: Heap, h': Heap, a: nat) {
    forall x :: Used(h', x) <==> Used(h, x) && x != a
  }

  ghost predicate UseKept(h: Heap, h': Heap) {
    forall x :: Used(h, x) && Used(h', x) ==> h'.blocks[x] == h.blocks[x]
  }

  lemma PlainIsRight(h: Heap, a: nat)
    requires Tiled(h) && ListOk(h) && Used(h, a)
    ensures Tiled(FreePlain(h, a)) && ListOk(FreePlain(h, a))
    ensures FreeBytes(FreePlain(h, a)) == FreeBytes(h) + h.blocks[a].size
    ensures OneLessUsed(h, FreePlain(h, a), a) && UseKept(h, FreePlain(h, a))
  {
    BytesAppend(h.blocks, h.free, a);
  }

  lemma NextIsRight(h: Heap, a: nat)
    requires Tiled(h) && ListOk(h) && Used(h, a)
    requires var n := a + h.blocks[a].size; n in h.free && Adjoins(h.blocks, a, n)
    ensures Tiled(FreeNext(h, a)) && ListOk(FreeNext(h, a))
    ensures FreeBytes(FreeNext(h, a)) == FreeBytes(h) + h.blocks[a].size
    ensures OneLessUsed(h, FreeNext(h, a), a) && UseKept(h, FreeNext(h, a))
  {
    var n := a + h.blocks[a].size;
    var h' := FreeNext(h, a);
    MergeKeepsTiling(h, a, n);
    RemoveIs(h.free, n);
    BytesRemove(h.blocks, h.free, n);
    var rest := Remove(h.free, n);
    BytesSame(h.blocks, h'.blocks, rest);
    BytesAppend(h'.blocks, rest, a);
    hide Tiled, Remove;
  }

  /** The previous-only merge keeps the tiling but loses memory: the whole merged block is in use by nobody. */
  lemma PrevLosesBlock(h: Heap, p: nat, a: nat)
    requires Tiled(h) && ListOk(h) && Used(h, a) && p in h.free && Adjoins(h.blocks, p, a)
    ensures Tiled(FreePrev(h, p, a)) && ListOk(FreePrev(h, p, a))
    ensures FreeBytes(FreePrev(h, p, a)) == FreeBytes(h) - h.blocks[p].size
    ensures forall x :: Used(FreePrev(h, p, a), x) <==> (Used(h, x) && x != a) || x == p
    ensures UseKept(h, FreePrev(h, p, a))
  {
    var h' := FreePrev(h, p, a);
    MergeKeepsTiling(h, p, a);
    RemoveIs(h.free, p);
    BytesRemove(h.blocks, h.free, p);
    BytesSame(h.blocks, h'.blocks, Remove(h.free, p));
    hide Tiled, Remove;
  }

  /** Merging with both neighbours is merging with the previous block, then with the next. */
  lemma BothIsTwoSteps(h: Heap, p: nat, a: nat)
    requires ListOk(h) && p in h.free && Adjoins(h.blocks, p, a) && a !in h.free
    requires var n := a + h.blocks[a].size; n in Remove(h.free, p) && Adjoins(h.blocks, a, n)
    ensures var h1, n := FreePrev(h, p, a), a + h.blocks[a].size;
            && Used(h1, p) && n in h1.free && Adjoins(h1.blocks, p, n) && p + h1.blocks[p].size == n
            && h1.blocks[p].size == h.blocks[p].size + h.blocks[a].size
            && FreeNext(h1, p) == FreeBoth(h, p, a)
  {
    RemoveIs(h.free, p);
  }

  ghost predicate BetweenFree(h: Heap, p: nat, a: nat) {
    && Tiled(h) && ListOk(h) && Used(h, a) && p in h.free && Adjoins(h.blocks, p, a)
    && a + h.blocks[a].size in Remove(h.free, p) && Adjoins(h.blocks, a, a + h.blocks[a].size)
  }

  /** The heap after the first of the two steps. */
  lemma MergedWithPrev(h: Heap, p: nat, a: nat) returns (h1: Heap)
    requires BetweenFree(h, p, a)
    ensures a + h.blocks[a].size in Merge(h.blocks, p, a)
    ensures Tiled(h1) && ListOk(h1) && Used(h1, p) && UseKept(h, h1)
    ensures var n := a + h.blocks[a].size; n in h1.free && Adjoins(h1.blocks, p, n) && p + h1.blocks[p].size == n
    ensures FreeBytes(h1) + h1.blocks[p].size == FreeBytes(h) + h.blocks[a].size
    ensures forall x :: Used(h1, x) <==> (Used(h, x) && x != a) || x == p
    ensures FreeNext(h1, p) == FreeBoth(h, p, a)
  {
    h1 := FreePrev(h, p, a);
    BothIsTwoSteps(h, p, a);
    PrevLosesBlock(h, p, a);
    hide Tiled, ListOk, Bytes, UseKept, Remove, FreeNext, FreeBoth;
  }

  lemma BothIsRight(h: Heap, p: nat, a: nat)
    requires BetweenFree(h, p, a)
    ensures a + h.blocks[a].size in Merge(h.blocks, p, a)
    ensures Tiled(FreeBoth(h, p, a)) && ListOk(FreeBoth(h, p, a))
    ensures FreeBytes(FreeBoth(h, p, a)) == FreeBytes(h) + h.blocks[a].size
    ensures OneLessUsed(h, FreeBoth(h, p, a), a) && UseKept(h, FreeBoth(h, p, a))
  {
    hide Tiled, Remove, Bytes, Merge, FreeNext, FreeBoth, OneLessUsed, UseKept;
    var h1 := MergedWithPrev(h, p, a);
    NextIsRight(h1, p);
    UseChain(h, h1, FreeBoth(h, p, a), p, a);
  }

  lemma UseChain(h: Heap, h1: Heap, h2: Heap, p: nat, a: nat)
    requires !Used(h, p) && (forall x :: Used(h1, x) <==> (Used(h, x) && x != a) || x == p) && OneLessUsed(h1, h2, p)
    requires UseKept(h, h1) && UseKept(h1, h2)
    ensures OneLessUsed(h, h2, a) && UseKept(h, h2)
  {
  }

  // ---------- Where the bytes go ----------

  /** What a request takes from the free bytes is exactly its block. */
  lemma CarveBytes(h: Heap, i: nat, needed: nat)
    requires Tiled(h) && ListOk(h) && i < |h.free| && h.blocks[h.free[i]].size >= needed
    requires needed % 4 == 0 && needed >= MIN_BLOCK
    ensures Listed(Carve(h, i, needed))
    ensures FreeBytes(h) == FreeBytes(Carve(h, i, needed)) + Carve(h, i, needed).blocks[h.free[i]].size
  {
    var a := h.free[i];
    CarveKeepsTiling(h, i, needed);
    BytesWithout(h.blocks, h.free, i);
    if h.blocks[a].size - needed >= MIN_BLOCK {
      var h' := Split(h, i, needed);
      CutIsNew(h, i, needed);
      BytesWithout(h'.blocks, h'.free, i);
      assert Without(h'.free, i) == Without(h.free, i);
      BytesSame(h.blocks, h'.blocks, Without(h.free, i));
    }
  }

  /** Place k of the free list holds a block of at least this size. */
  ghost predicate Fits(h: Heap, needed: nat, k: int)
    requires Listed(h)
  {
    0 <= k < |h.free| && h.blocks[h.free[k]].size >= needed
  }

  ghost predicate FirstThatFits(h: Heap, needed: nat, k: int)
    requires Listed(h)
  {
    Fits(h, needed, k) && forall j :: j < k ==> !Fits(h, needed, j)
  }

  /** A block of the list is handed out, the first that fits, and the free bytes shrink by exactly that block. */
  ghost predicate FirstIsServed(h: Heap, h': Heap, needed: nat, r: nat)
    requires Listed(h)
  {
    && r >= HEADER_SIZE && r - HEADER_SIZE in h'.blocks && Listed(h')
    && FreeBytes(h) == FreeBytes(h') + h'.blocks[r - HEADER_SIZE].size
    && forall k :: FirstThatFits(h, needed, k) ==> r - HEADER_SIZE == h.free[k]
  }

  /** Some block fits exactly if first fit finds one, and that is the first. */
  lemma FirstFitIs(h: Heap, needed: nat)
    requires Listed(h)
    ensures var i := FirstFit(h, needed, 0);
            && (i < |h.free| <==> exists k :: Fits(h, needed, k))
            && forall k :: FirstThatFits(h, needed, k) ==> k == i
  {
    var i := FirstFit(h, needed, 0);
    if i < |h.free| { assert Fits(h, needed, i); }
  }

  lemma CarvedIsServed(h: Heap, needed: nat)
    requires Tiled(h) && ListOk(h) && needed % 4 == 0 && needed >= MIN_BLOCK && FirstFit(h, needed, 0) < |h.free|
    ensures var i := FirstFit(h, needed, 0); FirstIsServed(h, Carve(h, i, needed), needed, h.free[i] + HEADER_SIZE)
  {
    var i := FirstFit(h, needed, 0);
    FirstFitIs(h, needed);
    CarveBytes(h, i, needed);
    CarveUses(h, i, needed);
    hide Bytes, FirstFit, Tiled, Carve, FirstThatFits;
  }

  lemma ServeIs(st: State, needed: nat)
    requires Shape(st) && needed % 4 == 0 && needed >= MIN_BLOCK
    ensures var r, st' := ServeResult(st, needed), ServeState(st, needed);
            if exists k :: Fits(st.heap, needed, k)
            then FirstIsServed(st.heap, st'.heap, needed, r) && st'.frames == st.frames
            else r == 0 && st' == st
  {
    hide FirstFit, Tiled, RegionOk, Carve, FirstIsServed, Fits;
    FirstFitIs(st.heap, needed);
    if FirstFit(st.heap, needed, 0) < |st.heap.free| { CarvedIsServed(st.heap, needed); }
  }

  /**
    kmalloc serves the request from the list as it is if a block fits, and otherwise from the list after growing; it
    fails exactly when no block fits even then.
   */
  lemma MallocIsComplete(st: State, size: nat)
    requires Shape(st) && 0 < size < WORD
    ensures var h, g, needed := st.heap, GrowState(st), Needed(size);
            var r, st' := MallocResult(st, size), MallocState(st, size);
            if exists k :: Fits(h, needed, k) then FirstIsServed(h, st'.heap, needed, r) && st'.frames == st.frames
            else if exists k :: Fits(g.heap, needed, k)
            then FirstIsServed(g.heap, st'.heap, needed, r) && st'.frames == g.frames
            else r == 0 && st' == g
  {
    hide Needed, GrowState, Tiled, RegionOk, FirstIsServed, Fits, ServeState, ServeResult, FirstFit;
    var needed := Needed(size);
    NeededIsEnough(size);
    GrowKeepsShape(st);
    FirstFitIs(st.heap, needed);
    ServeIs(Ready(st, needed), needed);
  }

  lemma RegionBytes(h: Heap, start: nat, size: nat)
    requires Listed(h) && start !in h.blocks
    ensures Listed(AddRegion(h, start, size)) && FreeBytes(AddRegion(h, start, size)) == FreeBytes(h) + size
  {
    var h' := AddRegion(h, start, size);
    BytesSame(h.blocks, h'.blocks, h.free);
    BytesAppend(h'.blocks, h.free, start);
  }

  /** Every page that the second loop of heap_grow takes becomes free bytes. */
  lemma {:induction false} SinglesBytes(st: State, i: nat)
    requires Shape(st)
    ensures FreeBytes(TakeSingles(st, i).heap) == FreeBytes(st.heap)
              + PAGE_SIZE * (|TakeSingles(st, i).frames.held| - |st.frames.held|)
    decreases GROW_PAGES - i
  {
    hide Shape, FreeBytes, AddRegion, TakeState, TakeResult;
    if i < GROW_PAGES && TakeResult(st.frames) != 0 {
      SingleJoins(st);
      SinglesBytes(State(AddRegion(st.heap, TakeResult(st.frames), PAGE_SIZE), TakeState(st.frames)), i + 1);
    }
  }

  lemma SingleJoins(st: State)
    requires Shape(st) && TakeResult(st.frames) != 0
    ensures var st' := State(AddRegion(st.heap, TakeResult(st.frames), PAGE_SIZE), TakeState(st.frames));
            && Shape(st') && FreeBytes(st'.heap) == FreeBytes(st.heap) + PAGE_SIZE
            && |st'.frames.held| == |st.frames.held| + 1
  {
    hide LowestFreeFrom, Bytes, FreeBytes;
    var page, fr' := TakeResult(st.frames), TakeState(st.frames);
    TakenIsNew(st.frames);
    NewIsOutside(st, page, PAGE_SIZE);
    MoreFramesKeepShape(st, fr');
    RegionJoins(State(st.heap, fr'), page, PAGE_SIZE);
    RegionBytes(st.heap, page, PAGE_SIZE);
    assert |fr'.held| == |st.frames.held| + 1;
    hide Shape, RegionOk;
  }

  lemma OneMoreHeld(fr: Frames)
    requires 0 in fr.held
    ensures |TakeState(fr).held| >= |fr.held| && 0 in TakeState(fr).held
    ensures TakeResult(fr) != 0 ==> GiveState(TakeState(fr), TakeResult(fr)) == fr
  {
    if TakeResult(fr) != 0 { TakeThenGive(fr); }
    hide LowestFreeFrom;
  }

  /** How many frames from f on are free in a row, counted up to n. */
  function FreeRun(fr: Frames, f: nat, n: nat): (r: nat)
    ensures r <= n && f + r <= (if r == 0 then f else fr.total)
    ensures forall g: nat {:trigger g in fr.held} :: f <= g < f + r ==> g !in fr.held
    ensures r == 0 <==> n == 0 || f >= fr.total || f in fr.held
    ensures r < n ==> f + r >= fr.total || f + r in fr.held
    decreases n
  {
    if n == 0 || f >= fr.total || f in fr.held then 0 else 1 + FreeRun(fr, f + 1, n - 1)
  }

  /** The frames from f on, n of them. */
  function Row(f: nat, n: nat): (s: set<nat>)
    ensures |s| == n && forall g: nat :: g in s <==> f <= g < f + n
  {
    if n == 0 then {} else Row(f, n - 1) + {f + n - 1}
  }

  function WithRow(fr: Frames, f: nat, n: nat): Frames {
    fr.(held := fr.held + Row(f, n))
  }

  lemma LowestIs(fr: Frames, f: nat)
    requires f <= fr.total && (f < fr.total ==> f !in fr.held) && forall g: nat :: g < f ==> g in fr.held
    ensures LowestFree(fr) == f
  {
  }

  /** The first loop of heap_grow takes the free frames in a row, and succeeds if there are sixteen. */
  lemma {:induction false} RunIsRow(fr: Frames, f: nat, i: nat)
    requires 0 in fr.held && f == LowestFree(fr) < fr.total && i <= FreeRun(fr, f, GROW_PAGES)
    ensures var n := FreeRun(fr, f, GROW_PAGES);
            TakeRun(WithRow(fr, f, i), f * PAGE_SIZE, i) == (WithRow(fr, f, n), n == GROW_PAGES)
    decreases GROW_PAGES - i
  {
    hide FreeRun, WithRow, TakeState, TakeResult, GiveState;
    if i < FreeRun(fr, f, GROW_PAGES) {
      RowGoesOn(fr, f, i);
      RunIsRow(fr, f, i + 1);
    } else if i < GROW_PAGES {
      RowStops(fr, f, i);
    }
  }

  lemma RowGoesOn(fr: Frames, f: nat, i: nat)
    requires 0 in fr.held && f == LowestFree(fr) < fr.total && i < FreeRun(fr, f, GROW_PAGES)
    ensures var now := WithRow(fr, f, i);
            TakeResult(now) == f * PAGE_SIZE + i * PAGE_SIZE != 0 && TakeState(now) == WithRow(fr, f, i + 1)
  {
    hide LowestFreeFrom, FreeRun, Row;
    var now := WithRow(fr, f, i);
    assert forall g: nat :: g < f + i ==> g in now.held;
    assert f + i !in now.held && f + i < now.total;
    LowestIs(now, f + i);
    assert now.held + {f + i} == WithRow(fr, f, i + 1).held;
  }

  lemma RowStops(fr: Frames, f: nat, i: nat)
    requires 0 in fr.held && f == LowestFree(fr) < fr.total && i == FreeRun(fr, f, GROW_PAGES) < GROW_PAGES
    ensures var now := WithRow(fr, f, i);
            if TakeResult(now) == 0 then TakeState(now) == now
            else TakeResult(now) != f * PAGE_SIZE + i * PAGE_SIZE && GiveState(TakeState(now), TakeResult(now)) == now
  {
    hide LowestFreeFrom, FreeRun, Row;
    var now := WithRow(fr, f, i);
    assert LowestFree(now) != f + i || f + i == fr.total;
    if LowestFree(now) < now.total { TakeThenGive(now); }
  }

  /** What heap_grow does, read off the frames. */
  lemma GrowIs(st: State)
    requires 0 in st.frames.held
    ensures var f := LowestFree(st.frames); var n := FreeRun(st.frames, f, GROW_PAGES);
            GrowState(st) ==
              if n == 0 then st
              else if n == GROW_PAGES then State(AddRegion(st.heap, f * PAGE_SIZE, HEAP_GROW), WithRow(st.frames, f, n))
              else TakeSingles(State(st.heap, WithRow(st.frames, f, n)), 0)
  {
    hide LowestFreeFrom, TakeRun, TakeSingles, FreeRun, Row;
    var f := LowestFree(st.frames);
    if f < st.frames.total {
      assert Row(f, 1) == {f};
      assert TakeState(st.frames) == WithRow(st.frames, f, 1);
      RunIsRow(st.frames, f, 1);
    }
  }

  lemma RowCount(fr: Frames, f: nat, n: nat)
    requires n <= FreeRun(fr, f, GROW_PAGES)
    ensures |WithRow(fr, f, n).held| == |fr.held| + n
  {
    hide FreeRun, Row;
    assert fr.held !! Row(f, n);
  }

  function Least(x: int, y: int): int { if x < y then x else y }

  /** The second loop takes every frame that is left, up to sixteen. */
  lemma {:induction false} SinglesCount(st: State, i: nat)
    requires 0 in st.frames.held && Sound(st.frames) && i <= GROW_PAGES
    ensures |TakeSingles(st, i).frames.held| ==
            |st.frames.held| + Least(GROW_PAGES - i, st.frames.total - |st.frames.held|)
    decreases GROW_PAGES - i
  {
    hide LowestFreeFrom, AddRegion, Below;
    HeldAll(st.frames);
    if i < GROW_PAGES && TakeResult(st.frames) != 0 {
      assert |TakeState(st.frames).held| == |st.frames.held| + 1;
      hide TakeState, TakeResult;
      SinglesCount(State(AddRegion(st.heap, TakeResult(st.frames), PAGE_SIZE), TakeState(st.frames)), i + 1);
    }
  }

  lemma HeldAll(fr: Frames)
    requires Sound(fr)
    ensures |fr.held| <= fr.total && (LowestFree(fr) == fr.total <==> |fr.held| == fr.total)
  {
    CountComplement(fr);
    var free := set f: nat | 0 <= f < fr.total && f !in fr.held;
    if LowestFree(fr) < fr.total { assert LowestFree(fr) in free; } else { assert free == {}; }
  }

  lemma RowKeepsShape(st: State, f: nat, n: nat)
    requires Shape(st) && n <= FreeRun(st.frames, f, GROW_PAGES)
    ensures Shape(State(st.heap, WithRow(st.frames, f, n)))
  {
    hide FreeRun, Row, Tiled, ListOk;
    MoreFramesKeepShape(st, WithRow(st.frames, f, n));
  }

  /**
    What growing brings. With f the lowest free frame and n the number of free frames in a row from f on: 64 KB if
    n is sixteen. If it is less, exactly these n pages are lost, held but part of no region, and of the pages
    that are then left sixteen, or all, become free bytes.
   */
  lemma GrowBytes(st: State)
    requires Shape(st)
    ensures var f := LowestFree(st.frames); var n := FreeRun(st.frames, f, GROW_PAGES);
            var st' := GrowState(st); var gain := Least(GROW_PAGES, st.frames.total - |st.frames.held| - n);
            && (n == 0 <==> f == st.frames.total) && (n == 0 ==> st' == st)
            && (n == GROW_PAGES ==>
                  && FreeBytes(st'.heap) == FreeBytes(st.heap) + HEAP_GROW
                  && |st'.frames.held| == |st.frames.held| + GROW_PAGES)
            && (0 < n < GROW_PAGES ==>
                  && FreeBytes(st'.heap) == FreeBytes(st.heap) + PAGE_SIZE * gain
                  && |st'.frames.held| == |st.frames.held| + n + gain)
  {
    hide TakeRun, TakeSingles, Bytes, LowestFreeFrom, FreeRun, Row, GrowState, Shape;
    assert 0 in st.frames.held && Sound(st.frames) by { FramesHeld(st); }
    var f := LowestFree(st.frames);
    var n := FreeRun(st.frames, f, GROW_PAGES);
    GrowIs(st);
    RowCount(st.frames, f, n);
    RowKeepsShape(st, f, n);
    FramesHeld(st);
    if n == GROW_PAGES {
      RowIsNew(st, f);
      RegionBytes(st.heap, f * PAGE_SIZE, HEAP_GROW);
    } else if n > 0 {
      var st1 := State(st.heap, WithRow(st.frames, f, n));
      FramesHeld(st1);
      SinglesBytes(st1, 0);
      SinglesCount(st1, 0);
    }
  }

  lemma {:induction false} SinglesAreNew(st: State, i: nat)
    requires 0 in st.frames.held
    ensures var h' := TakeSingles(st, i).heap;
            forall s :: s in h'.regions ==>
              || (s in st.heap.regions && h'.regions[s] == st.heap.regions[s])
              || exists g: nat :: g !in st.frames.held && s == g * PAGE_SIZE && h'.regions[s] == s + PAGE_SIZE
    decreases GROW_PAGES - i
  {
    hide LowestFreeFrom;
    if i < GROW_PAGES && TakeResult(st.frames) != 0 {
      SinglesAreNew(State(AddRegion(st.heap, TakeResult(st.frames), PAGE_SIZE), TakeState(st.frames)), i + 1);
    }
  }

  /** The pages of a row that is too short are in no region afterwards. */
  lemma LostPagesAreInNoRegion(st: State, s: nat, g: nat)
    requires Shape(st) && s in GrowState(st).heap.regions
    requires var f := LowestFree(st.frames); var n := FreeRun(st.frames, f, GROW_PAGES);
             n < GROW_PAGES && f <= g < f + n
    ensures !(s <= g * PAGE_SIZE < GrowState(st).heap.regions[s]) && g !in st.frames.held
  {
    hide FreeRun, Row, TakeSingles, TakeRun, LowestFreeFrom, GrowState, Tiled, ListOk;
    var f := LowestFree(st.frames);
    var n := FreeRun(st.frames, f, GROW_PAGES);
    GrowIs(st);
    SinglesAreNew(State(st.heap, WithRow(st.frames, f, n)), 0);
    assert g in WithRow(st.frames, f, n).held;
    if s in st.heap.regions { assert RegionOk(s, st.heap.regions[s], st.frames); }
  }

  lemma FramesHeld(st: State)
    requires Shape(st)
    ensures 0 in st.frames.held && Sound(st.frames) && Listed(st.heap)
  {
  }

  lemma RowIsNew(st: State, f: nat)
    requires Shape(st) && f == LowestFree(st.frames) && FreeRun(st.frames, f, GROW_PAGES) == GROW_PAGES
    ensures f * PAGE_SIZE !in st.heap.blocks && Listed(AddRegion(st.heap, f * PAGE_SIZE, HEAP_GROW))
  {
    hide FreeRun, Row, TakeRun, LowestFreeFrom, Tiled;
    var first := f * PAGE_SIZE;
    TakenIsNew(st.frames);
    RunIsTaken(st.frames, TakeState(st.frames), first, 1);
    assert Row(f, 1) == {f};
    assert TakeState(st.frames) == WithRow(st.frames, f, 1);
    RunIsRow(st.frames, f, 1);
    NewIsOutside(st, first, HEAP_GROW);
    RegionJoins(State(st.heap, WithRow(st.frames, f, GROW_PAGES)), first, HEAP_GROW);
  }

  // ---------- Runs ----------

  /**
    kmalloc; kfree with what its tests found, the block before, if it is taken for free, and whether the next
    one is; and other code that takes and gives back frames.
   */
  datatype Op = Malloc(size: nat) | Free(addr: nat, prev: nat, next: bool) | Traffic(frames: Frames)

  /** Every neighbour that the tests accept is a free block of the same region (prev == 0: none accepted). */
  ghost predicate Right(h: Heap, a: nat, prev: nat, next: bool)
    requires a in h.blocks
  {
    && (prev != 0 ==> prev in h.free && Adjoins(h.blocks, prev, a))
    && (next ==> a + h.blocks[a].size in h.free && Adjoins(h.blocks, a, a + h.blocks[a].size))
  }

  ghost function FreeHeap(h: Heap, a: nat, prev: nat, next: bool): Heap
    requires ListOk(h) && a in h.blocks && a !in h.free && Right(h, a, prev, next)
  {
    if prev != 0 && next then RemoveIs(h.free, prev); FreeBoth(h, prev, a)
    else if prev != 0 then FreePrev(h, prev, a)
    else if next then FreeNext(h, a)
    else FreePlain(h, a)
  }

  /** kfree keeps the shape, and unless it merges with the previous block only it frees exactly its block. */
  lemma FreeIsRight(st: State, a: nat, prev: nat, next: bool)
    requires Shape(st) && Used(st.heap, a) && Right(st.heap, a, prev, next)
    ensures Shape(st.(heap := FreeHeap(st.heap, a, prev, next)))
    ensures var h' := FreeHeap(st.heap, a, prev, next);
            && UseKept(st.heap, h')
            && if prev != 0 && !next then FreeBytes(h') == FreeBytes(st.heap) - st.heap.blocks[prev].size
               else FreeBytes(h') == FreeBytes(st.heap) + st.heap.blocks[a].size && OneLessUsed(st.heap, h', a)
  {
    var h := st.heap;
    if prev != 0 && next {
      RemoveIs(h.free, prev);
      BothIsRight(h, prev, a);
    } else if prev != 0 {
      PrevLosesBlock(h, prev, a);
    } else if next {
      NextIsRight(h, a);
    } else {
      PlainIsRight(h, a);
    }
    hide Tiled, ListOk, Bytes, RegionOk, Remove;
  }

  ghost predicate LegalOp(st: State, op: Op) {
    match op
    case Malloc(size) => size <= 0xFFFFFFE8
    case Free(a, prev, next) => Used(st.heap, a) && Right(st.heap, a, prev, next) && !(prev != 0 && !next)
    case Traffic(fr) => KeepsRegions(st, fr)
  }

  /** Nobody gives back frame 0 or a frame of the heap. */
  ghost predicate KeepsRegions(st: State, fr: Frames) {
    && Sound(fr) && fr.total == st.frames.total && 0 in fr.held
    && forall s :: s in st.heap.regions ==> RegionOk(s, st.heap.regions[s], fr)
  }

  ghost function OpState(st: State, op: Op): State
    requires Shape(st) && LegalOp(st, op)
  {
    match op
    case Malloc(size) => MallocState(st, size)
    case Free(a, prev, next) => st.(heap := FreeHeap(st.heap, a, prev, next))
    case Traffic(fr) => st.(frames := fr)
  }

  /** The live allocations: payload address and the size asked for. */
  ghost function OpLive(st: State, live: map<nat, nat>, op: Op): map<nat, nat>
    requires Shape(st) && LegalOp(st, op)
  {
    match op
    case Malloc(size) => if MallocResult(st, size) == 0 then live else live[MallocResult(st, size) := size]
    case Free(a, _, _) => live - {a + HEADER_SIZE}
    case Traffic(_) => live
  }

  /** The blocks in use are those of the live allocations, one each, and large enough. */
  ghost predicate LiveOk(h: Heap, live: map<nat, nat>) {
    && (forall x: nat :: Used(h, x) ==> x + HEADER_SIZE in live)
    && forall p :: p in live ==>
         && p >= HEADER_SIZE && p % 4 == 0 && Used(h, p - HEADER_SIZE)
         && h.blocks[p - HEADER_SIZE].size >= live[p] + OVERHEAD
  }

  lemma OpKeepsShape(st: State, op: Op)
    requires Shape(st) && LegalOp(st, op)
    ensures Shape(OpState(st, op))
  {
    hide MallocState, MallocResult, FreeHeap, Tiled, RegionOk, Bytes;
    match op
    case Malloc(size) => MallocKeepsShape(st, size);
    case Free(a, prev, next) => FreeIsRight(st, a, prev, next);
    case Traffic(fr) =>
  }

  lemma OpKeeps(st: State, live: map<nat, nat>, op: Op)
    requires Shape(st) && LiveOk(st.heap, live) && LegalOp(st, op)
    ensures Shape(OpState(st, op)) && LiveOk(OpState(st, op).heap, OpLive(st, live, op))
  {
    hide MallocState, MallocResult, FreeHeap, Tiled, RegionOk, Bytes, LiveOk, OneMoreUsed, OneLessUsed, UseKept;
    OpKeepsShape(st, op);
    var h, h' := st.heap, OpState(st, op).heap;
    match op
    case Malloc(size) =>
      MallocKeepsShape(st, size);
      if MallocResult(st, size) == 0 {
        SameLive(h, h', live);
      } else {
        MoreLive(h, h', live, MallocResult(st, size), size);
      }
    case Free(a, prev, next) =>
      FreeIsRight(st, a, prev, next);
      LessLive(h, h', live, a);
    case Traffic(fr) =>
  }

  lemma SameLive(h: Heap, h': Heap, live: map<nat, nat>)
    requires LiveOk(h, live) && SameUse(h, h')
    ensures LiveOk(h', live)
  {
  }

  lemma MoreLive(h: Heap, h': Heap, live: map<nat, nat>, p: nat, size: nat)
    requires LiveOk(h, live) && p >= HEADER_SIZE && p % 4 == 0 && OneMoreUsed(h, h', p - HEADER_SIZE)
    requires h'.blocks[p - HEADER_SIZE].size >= size + OVERHEAD
    ensures LiveOk(h', live[p := size])
  {
  }

  lemma LessLive(h: Heap, h': Heap, live: map<nat, nat>, a: nat)
    requires LiveOk(h, live) && OneLessUsed(h, h', a) && UseKept(h, h')
    ensures LiveOk(h', live - {a + HEADER_SIZE})
  {
  }

  ghost predicate LegalRun(st: State, ops: seq<Op>)
    requires Shape(st)
    decreases |ops|
  {
    ops != [] ==> LegalOp(st, ops[0]) && (OpKeepsShape(st, ops[0]); LegalRun(OpState(st, ops[0]), ops[1..]))
  }

  ghost function RunState(st: State, ops: seq<Op>): State
    requires Shape(st) && LegalRun(st, ops)
    decreases |ops|
  {
    if ops == [] then st else OpKeepsShape(st, ops[0]); RunState(OpState(st, ops[0]), ops[1..])
  }

  ghost function RunLive(st: State, live: map<nat, nat>, ops: seq<Op>): map<nat, nat>
    requires Shape(st) && LegalRun(st, ops)
    decreases |ops|
  {
    if ops == [] then live
    else OpKeepsShape(st, ops[0]); RunLive(OpState(st, ops[0]), OpLive(st, live, ops[0]), ops[1..])
  }

  /**
    Over every run of kmalloc, of kfree whose tests are right, and of other code's frame traffic, the blocks tile
    the regions, the list holds exactly the blocks that are no live allocation's, and the live allocations are
    aligned, large enough and pairwise disjoint.
   */
  lemma {:induction false} HeapIsSafe(st: State, live: map<nat, nat>, ops: seq<Op>)
    requires Shape(st) && LiveOk(st.heap, live) && LegalRun(st, ops)
    ensures Shape(RunState(st, ops)) && LiveOk(RunState(st, ops).heap, RunLive(st, live, ops))
    ensures var h := RunState(st, ops).heap;
            forall x :: x in h.blocks ==> (x in h.free <==> x + HEADER_SIZE !in RunLive(st, live, ops))
    ensures forall p, q :: p in RunLive(st, live, ops) && q in RunLive(st, live, ops) && p < q ==>
                             p + RunLive(st, live, ops)[p] <= q - OVERHEAD
    decreases |ops|
  {
    if ops == [] {
      LiveApart(st.heap, live);
    } else {
      OpKeeps(st, live, ops[0]);
      hide OpState, OpLive, Shape, LegalOp;
      HeapIsSafe(OpState(st, ops[0]), OpLive(st, live, ops[0]), ops[1..]);
    }
  }

  lemma LiveApart(h: Heap, live: map<nat, nat>)
    requires Tiled(h) && LiveOk(h, live)
    ensures forall x :: x in h.blocks ==> (x in h.free <==> x + HEADER_SIZE !in live)
    ensures forall p, q :: p in live && q in live && p < q ==> p + live[p] <= q - OVERHEAD
  {
    forall x | x in h.blocks ensures x in h.free <==> x + HEADER_SIZE !in live {
      var p := x + HEADER_SIZE;
      assert Used(h, x) <==> x !in h.free;
      if p in live { assert Used(h, p - HEADER_SIZE); }
    }
    forall p, q | p in live && q in live && p < q ensures p + live[p] <= q - OVERHEAD {
      Separate(h.blocks, p - HEADER_SIZE, q - HEADER_SIZE);
    }
  }
}
