/**
  Runs of the heap from boot (src/kernel.cpp:106-112, src/memory/kmalloc.cpp) that end in a failure: blocks that
  are lost in the previous-only merge, and pages that are lost in scattered growth.
 */
module FreeRuns {

  import opened FrameAllocator
  import opened HeapModel
  import opened HeapMemory
  import opened HeapSteps
  import opened RawFree
  import opened FreeRight
  import opened FreeExamples
  import BootPaging

  // ---------- The start ----------

  /** The first frame that is free when kmalloc_init runs: behind the frames reserved and the page tables. */
  function HeapFrame(mb: nat): nat { 1023 + BootPaging.EndSlots(mb) }

  /** The frames below n are held. */
  function Held(mb: nat, n: nat): Frames { Frames(mb * 256, Below(n)) }

  /** The heap and the frames after kmalloc_init. */
  function BootState(mb: nat): State {
    State(BootHeap(HeapFrame(mb) * PAGE_SIZE), Held(mb, HeapFrame(mb) + 1))
  }

  lemma LowestHeld(mb: nat, n: nat)
    requires n <= mb * 256
    ensures LowestFree(Held(mb, n)) == n && Sound(Held(mb, n))
    ensures n < mb * 256 ==> TakeState(Held(mb, n)) == Held(mb, n + 1)
  {
    BootPaging.LowestOfBelow(mb * 256, n);
    assert Below(n + 1) == Below(n) + {n};
  }

  lemma RoomForHeap(mb: nat)
    requires 5 <= mb <= MAX_RAM_MB
    ensures 1025 <= HeapFrame(mb) && HeapFrame(mb) + 40 <= mb * 256
  {
  }

  /** kmalloc_init takes its page from the frames that paging_init leaves. */
  lemma BootStarts(mb: nat)
    requires 5 <= mb <= MAX_RAM_MB
    ensures BootPaging.BootTaken(mb, BootPaging.EndSlots(mb) - 1) == Held(mb, HeapFrame(mb))
    ensures var fr := Held(mb, HeapFrame(mb));
            && Boots(fr, HeapFrame(mb) * PAGE_SIZE)
            && BootState(mb) == State(BootHeap(HeapFrame(mb) * PAGE_SIZE), TakeState(fr))
    ensures Shape(BootState(mb)) && High(BootState(mb).heap) && LowHeld(BootState(mb).frames)
    ensures 1025 <= HeapFrame(mb) && HeapFrame(mb) + 40 <= mb * 256
  {
    var n := HeapFrame(mb);
    assert 1025 <= n && n + 40 <= mb * 256;
    LowestHeld(mb, n);
    BootShape(Held(mb, n), n * PAGE_SIZE);
  }

  /** From boot on, over every run, no region is longer than 64 KB and all lie above the first 64 KB. */
  lemma HighFromBoot(mb: nat, ops: seq<Op>)
    requires 5 <= mb <= MAX_RAM_MB && Shape(BootState(mb)) && LegalRun(BootState(mb), ops)
    requires forall k :: 0 <= k < |ops| ==> KeepsLow(ops[k])
    ensures High(HeapModel.RunState(BootState(mb), ops).heap)
  {
    BootStarts(mb);
    HighForEver(BootState(mb), ops);
  }

  // ---------- Single requests ----------

  /** A whole block of exactly the size that is needed, or too little more to be split, is taken. */
  lemma WholeIsTaken(st: State, a: nat, size: nat)
    requires 0 < size < WORD && st.heap.free == [a] && a in st.heap.blocks
    requires Needed(size) <= st.heap.blocks[a].size < Needed(size) + MIN_BLOCK
    ensures MallocState(st, size) == st.(heap := st.heap.(free := [])) && MallocResult(st, size) == a + HEADER_SIZE
  {
    hide Needed, GrowState;
    assert Without([a], 0) == [];
  }

  /** With an empty list the heap grows first, here by a row of sixteen frames. */
  lemma GrownAndCut(st: State, f: nat, size: nat)
    requires 0 < size < WORD && st.heap.free == [] && 0 in st.frames.held && Needed(size) + MIN_BLOCK <= HEAP_GROW
    requires f == LowestFree(st.frames) && FreeRun(st.frames, f, GROW_PAGES) == GROW_PAGES
    ensures var h := AddRegion(st.heap, f * PAGE_SIZE, HEAP_GROW);
            && |h.free| == 1
            && MallocState(st, size) == State(Split(h, 0, Needed(size)), WithRow(st.frames, f, GROW_PAGES))
            && MallocResult(st, size) == f * PAGE_SIZE + HEADER_SIZE
  {
    hide Needed, GrowState, FreeRun, WithRow, LowestFreeFrom;
    GrowIs(st);
    assert st.heap.free + [f * PAGE_SIZE] == [f * PAGE_SIZE];
  }

  /** The same, with the heap and the frames that result. */
  lemma GrownInto(st: State, f: nat, size: nat, needed: nat, h: Heap, st': State)
    requires 0 < size < WORD && st.heap.free == [] && 0 in st.frames.held
    requires Needed(size) == needed <= HEAP_GROW - MIN_BLOCK
    requires f == LowestFree(st.frames) && FreeRun(st.frames, f, GROW_PAGES) == GROW_PAGES
    requires h == AddRegion(st.heap, f * PAGE_SIZE, HEAP_GROW) && |h.free| == 1
    requires h.free[0] in h.blocks && h.blocks[h.free[0]].size >= needed
    requires st' == State(Split(h, 0, needed), WithRow(st.frames, f, GROW_PAGES))
    ensures MallocState(st, size) == st'
  {
    hide Needed, MallocState, FreeRun, WithRow, LowestFreeFrom, Split;
    GrownAndCut(st, f, size);
  }

  lemma NeededHere()
    ensures Needed(8) == 32 && Needed(32752) == 32772 && Needed(32744) == 32764 && Needed(4072) == 4092
  {
  }

  lemma SixteenInARow(mb: nat, n: nat)
    requires n + GROW_PAGES <= mb * 256
    ensures LowestFree(Held(mb, n)) == n && FreeRun(Held(mb, n), n, GROW_PAGES) == GROW_PAGES
    ensures WithRow(Held(mb, n), n, GROW_PAGES) == Held(mb, n + GROW_PAGES)
  {
    hide FreeRun, Row;
    LowestHeld(mb, n);
    assert Below(n) + Row(n, GROW_PAGES) == Below(n + GROW_PAGES);
  }

  // ---------- A block alone in its page ----------

  /** The first page, wholly in use. */
  function FullPage(p: nat): Heap {
    Heap(map[p := Block(PAGE_SIZE, p)], [], map[p := p + PAGE_SIZE], p + PAGE_SIZE)
  }

  function FullState(mb: nat): State {
    State(FullPage(HeapFrame(mb) * PAGE_SIZE), Held(mb, HeapFrame(mb) + 1))
  }

  lemma FillsThePage(st: State, p: nat)
    requires st.heap == BootHeap(p)
    ensures MallocState(st, 4072) == st.(heap := FullPage(p)) && MallocResult(st, 4072) == p + HEADER_SIZE
  {
    NeededHere();
    hide Needed;
    WholeIsTaken(st, p, 4072);
  }

  /** After boot a request for 4072 bytes takes the whole page. */
  lemma FullAfterBoot(mb: nat)
    requires 5 <= mb <= MAX_RAM_MB
    ensures Shape(BootState(mb)) && MallocState(BootState(mb), 4072) == FullState(mb)
    ensures Shape(FullState(mb)) && High(FullState(mb).heap) && HeapFrame(mb) >= 1025
  {
    BootStarts(mb);
    FillsThePage(BootState(mb), HeapFrame(mb) * PAGE_SIZE);
    hide Shape, MallocState;
    MallocKeepsShape(BootState(mb), 4072);
  }

  /**
    If the word before the page is zero, freeing that block merges it with itself only: it gets the size of two
    pages, with a footer in the page behind, and the list stays empty.
   */
  lemma AloneIsLost(mb: nat, r: Raw)
    requires 5 <= mb <= MAX_RAM_MB && Describes(r, FullState(mb))
    requires var p := HeapFrame(mb) * PAGE_SIZE;
             p + 2 * PAGE_SIZE <= |r.m| && r.m[p - 4] == 0 && r.m[p + 8] == 0 && r.m[p + 12] == 0
    ensures var p := HeapFrame(mb) * PAGE_SIZE; var end := p + PAGE_SIZE;
            PrevAccepted(r.m, p, end) && PrevFound(r.m, p, end) == p && !NextAccepted(r.m, end, end)
    ensures Shape(FullState(mb)) && !FreesRightly(r, FullState(mb), HeapFrame(mb) * PAGE_SIZE)
    ensures var p := HeapFrame(mb) * PAGE_SIZE;
            FreeWrites(r, p + PAGE_SIZE, p, Raw(Resize(r.m, p, 2 * PAGE_SIZE), 0))
  {
    hide Shape, Written, FreesRightly, High, FreeWrites, Resize, PrevAccepted, NextAccepted, PrevFound, BootState;
    FullAfterBoot(mb);
    RoomForHeap(mb);
    hide HeapFrame, FullPage;
    AloneAt(r, FullState(mb), HeapFrame(mb) * PAGE_SIZE);
  }

  lemma AloneAt(r: Raw, st: State, p: nat)
    requires Describes(r, st) && High(st.heap) && st.heap == FullPage(p)
    requires 4 <= p && p + 2 * PAGE_SIZE <= |r.m| && r.m[p - 4] == 0 && r.m[p + 8] == 0 && r.m[p + 12] == 0
    ensures var end := p + PAGE_SIZE;
            PrevAccepted(r.m, p, end) && PrevFound(r.m, p, end) == p && !NextAccepted(r.m, end, end)
    ensures Used(st.heap, p) && !FreesRightly(r, st, p)
    ensures FreeWrites(r, p + PAGE_SIZE, p, Raw(Resize(r.m, p, 2 * PAGE_SIZE), 0))
  {
    SizeWord(r.m, st.heap, p);
    Placed(st, p);
    hide Shape, Written, FreesRightly;
    assert Unhook(r, p) == r;
    RightExactlyIf(r, st, p);
  }

  // ---------- Two halves of a region ----------

  /** A region of 64 KB, cut in two; the blocks in the list are given. */
  function Halves(p: nat, u: nat, free: seq<nat>): Heap {
    Heap(map[p := Block(PAGE_SIZE, p), u := Block(32772, u), u + 32772 := Block(32764, u)], free,
         map[p := p + PAGE_SIZE, u := u + HEAP_GROW], u + HEAP_GROW)
  }

  /** Another region, added later and lower in memory: the end pointer is below the two halves now. */
  function LowerRegion(p: nat, u: nat, l: nat, free: seq<nat>): Heap {
    Heap(map[p := Block(PAGE_SIZE, p), u := Block(32772, u), u + 32772 := Block(32764, u),
             l := Block(32, l), l + 32 := Block(65504, l)], free,
         map[p := p + PAGE_SIZE, u := u + HEAP_GROW, l := l + HEAP_GROW], l + HEAP_GROW)
  }

  /** The frames below n + 34 are held, but for sixteen behind the first page. */
  function Gap(mb: nat, n: nat): Frames {
    Frames(mb * 256, Below(n + 34) - Row(n + 1, GROW_PAGES))
  }

  lemma GapIsFilled(mb: nat, n: nat)
    requires n + 34 <= mb * 256
    ensures LowestFree(Gap(mb, n)) == n + 1 && FreeRun(Gap(mb, n), n + 1, GROW_PAGES) == GROW_PAGES
    ensures WithRow(Gap(mb, n), n + 1, GROW_PAGES) == Held(mb, n + 34) && Sound(Gap(mb, n)) && 0 in Gap(mb, n).held
  {
    hide FreeRun, Row;
    LowestIs(Gap(mb, n), n + 1);
    assert Gap(mb, n).held + Row(n + 1, GROW_PAGES) == Below(n + 34);
  }

  ghost predicate CutInFront(h: Heap, needed: nat) {
    |h.free| == 1 && h.free[0] in h.blocks && h.blocks[h.free[0]].size >= needed
  }

  lemma CutUpper(mb: nat, n: nat)
    requires 0 < n && n + 34 <= mb * 256
    ensures MallocState(State(FullPage(n * PAGE_SIZE), Held(mb, n + 18)), 32752) ==
            State(Halves(n * PAGE_SIZE, (n + 18) * PAGE_SIZE, [(n + 18) * PAGE_SIZE + 32772]), Held(mb, n + 34))
  {
    hide MallocState, Split, AddRegion, Needed, WithRow, FreeRun, Halves, LowestFreeFrom, Below;
    NeededHere();
    SixteenInARow(mb, n + 18);
    var p, u := n * PAGE_SIZE, (n + 18) * PAGE_SIZE;
    var st := State(FullPage(p), Held(mb, n + 18));
    SplitUpper(p, u);
    hide FullPage;
    GrownInto(st, n + 18, 32752, 32772, AddRegion(st.heap, u, HEAP_GROW),
              State(Halves(p, u, [u + 32772]), Held(mb, n + 34)));
  }

  lemma SplitUpper(p: nat, u: nat)
    requires p < u
    ensures FullPage(p).free == [] && CutInFront(AddRegion(FullPage(p), u, HEAP_GROW), 32772)
    ensures Split(AddRegion(FullPage(p), u, HEAP_GROW), 0, 32772) == Halves(p, u, [u + 32772])
  {
  }

  lemma TakeUpper(st: State, p: nat, u: nat)
    requires st.heap == Halves(p, u, [u + 32772])
    ensures MallocState(st, 32744) == st.(heap := Halves(p, u, []))
  {
    NeededHere();
    hide Needed;
    WholeIsTaken(st, u + 32772, 32744);
  }

  lemma CutLower(mb: nat, n: nat)
    requires 0 < n && n + 34 <= mb * 256
    ensures var p, u, l := n * PAGE_SIZE, (n + 18) * PAGE_SIZE, (n + 1) * PAGE_SIZE;
            MallocState(State(Halves(p, u, []), Gap(mb, n)), 8) ==
              State(LowerRegion(p, u, l, [l + 32]), Held(mb, n + 34))
  {
    var p, u, l := n * PAGE_SIZE, (n + 18) * PAGE_SIZE, (n + 1) * PAGE_SIZE;
    hide MallocState, Split, AddRegion, Needed, WithRow, FreeRun, LowerRegion, Gap, LowestFreeFrom, Halves, Below;
    NeededHere();
    GapIsFilled(mb, n);
    SplitLower(p, u, l);
    var st := State(Halves(p, u, []), Gap(mb, n));
    GrownInto(st, n + 1, 8, 32, AddRegion(st.heap, l, HEAP_GROW),
              State(LowerRegion(p, u, l, [l + 32]), Held(mb, n + 34)));
  }

  lemma SplitLower(p: nat, u: nat, l: nat)
    requires p < l && l + HEAP_GROW < u
    ensures Halves(p, u, []).free == [] && CutInFront(AddRegion(Halves(p, u, []), l, HEAP_GROW), 32)
    ensures Split(AddRegion(Halves(p, u, []), l, HEAP_GROW), 0, 32) == LowerRegion(p, u, l, [l + 32])
  {
  }

  // ---------- The run ----------

  lemma RunCons(st: State, op: Op, ops: seq<Op>)
    requires Shape(st) && LegalOp(st, op) && Shape(HeapModel.OpState(st, op))
    requires LegalRun(HeapModel.OpState(st, op), ops)
    ensures LegalRun(st, [op] + ops)
    ensures HeapModel.RunState(st, [op] + ops) == HeapModel.RunState(HeapModel.OpState(st, op), ops)
  {
    assert ([op] + ops)[1..] == ops;
    hide LegalOp, HeapModel.OpState, Shape;
  }

  /** One step in front of a run that ends in last. */
  ghost predicate Leads(st: State, ops: seq<Op>, last: State) {
    Shape(st) && LegalRun(st, ops) && HeapModel.RunState(st, ops) == last
  }

  lemma MallocGives(st: State, size: nat, st1: State)
    requires Shape(st) && size <= 0xFFFFFFE8 && MallocState(st, size) == st1
    ensures Shape(st1)
  {
    MallocKeepsShape(st, size);
  }

  lemma TrafficGives(st: State, fr: Frames)
    requires Shape(st) && KeepsRegions(st, fr)
    ensures Shape(st.(frames := fr))
  {
    OpKeepsShape(st, Traffic(fr));
  }

  lemma MallocLeads(st: State, size: nat, st1: State, ops: seq<Op>, last: State)
    requires Shape(st) && size <= 0xFFFFFFE8 && MallocState(st, size) == st1 && (Shape(st1) ==> Leads(st1, ops, last))
    ensures Shape(st1) && Leads(st, [Malloc(size)] + ops, last)
  {
    MallocKeepsShape(st, size);
    hide MallocState, Shape;
    RunCons(st, Malloc(size), ops);
  }

  lemma TrafficLeads(st: State, fr: Frames, ops: seq<Op>, last: State)
    requires Shape(st) && KeepsRegions(st, fr) && (Shape(st.(frames := fr)) ==> Leads(st.(frames := fr), ops, last))
    ensures Shape(st.(frames := fr)) && Leads(st, [Traffic(fr)] + ops, last)
  {
    OpKeepsShape(st, Traffic(fr));
    hide Shape, KeepsRegions;
    RunCons(st, Traffic(fr), ops);
  }

  lemma FreeLeads(st: State, a: nat)
    requires Shape(st) && Used(st.heap, a)
    ensures Leads(st, [Free(a, 0, false)], st.(heap := FreePlain(st.heap, a)))
  {
    var st1 := st.(heap := FreePlain(st.heap, a));
    OpKeepsShape(st, Free(a, 0, false));
    hide Shape;
    RunCons(st, Free(a, 0, false), []);
    assert [Free(a, 0, false)] + [] == [Free(a, 0, false)];
  }

  lemma RegionStays(first: nat, count: nat, fr: Frames, fr': Frames)
    requires RegionOk(first * PAGE_SIZE, (first + count) * PAGE_SIZE, fr) && fr'.total == fr.total
    requires forall f: nat :: first <= f < first + count ==> f in fr'.held
    ensures RegionOk(first * PAGE_SIZE, (first + count) * PAGE_SIZE, fr')
  {
  }

  /** Traffic that keeps the first page, when that is the only region. */
  lemma PageTraffic(st: State, n: nat, fr: Frames)
    requires Shape(st) && st.heap.regions == map[n * PAGE_SIZE := (n + 1) * PAGE_SIZE] && n in fr.held
    requires Sound(fr) && fr.total == st.frames.total && 0 in fr.held
    ensures KeepsRegions(st, fr)
  {
    assert n * PAGE_SIZE in st.heap.regions;
    hide Shape, Sound;
    RegionStays(n, 1, st.frames, fr);
  }

  lemma MoreTraffic(mb: nat, n: nat)
    requires 0 < n && n + 18 <= mb * 256 && Shape(State(BootHeap(n * PAGE_SIZE), Held(mb, n + 1)))
    ensures KeepsRegions(State(BootHeap(n * PAGE_SIZE), Held(mb, n + 1)), Held(mb, n + 18))
  {
    hide Shape, KeepsRegions, Below;
    PageTraffic(State(BootHeap(n * PAGE_SIZE), Held(mb, n + 1)), n, Held(mb, n + 18));
  }

  lemma GapTraffic(mb: nat, n: nat)
    requires 0 < n && n + 34 <= mb * 256
    requires Shape(State(Halves(n * PAGE_SIZE, (n + 18) * PAGE_SIZE, []), Held(mb, n + 34)))
    ensures KeepsRegions(State(Halves(n * PAGE_SIZE, (n + 18) * PAGE_SIZE, []), Held(mb, n + 34)), Gap(mb, n))
  {
    hide Shape, KeepsRegions, Below, Row;
    TwoTraffic(State(Halves(n * PAGE_SIZE, (n + 18) * PAGE_SIZE, []), Held(mb, n + 34)), n, Gap(mb, n));
  }

  lemma TwoTraffic(st: State, n: nat, fr: Frames)
    requires Shape(st) && n in fr.held && forall f: nat :: n + 18 <= f < n + 34 ==> f in fr.held
    requires st.heap.regions == map[n * PAGE_SIZE := (n + 1) * PAGE_SIZE, (n + 18) * PAGE_SIZE := (n + 34) * PAGE_SIZE]
    requires Sound(fr) && fr.total == st.frames.total && 0 in fr.held
    ensures KeepsRegions(st, fr)
  {
    assert n * PAGE_SIZE in st.heap.regions && (n + 18) * PAGE_SIZE in st.heap.regions;
    hide Shape, Sound;
    RegionStays(n, 1, st.frames, fr);
    RegionStays(n + 18, 16, st.frames, fr);
    hide RegionOk;
  }

  // The states after the steps, and the steps that are still to come.

  function After1(mb: nat, n: nat): State { State(BootHeap(n * PAGE_SIZE), Held(mb, n + 18)) }
  function After2(mb: nat, n: nat): State { State(FullPage(n * PAGE_SIZE), Held(mb, n + 18)) }
  function After3(mb: nat, n: nat): State {
    State(Halves(n * PAGE_SIZE, (n + 18) * PAGE_SIZE, [(n + 18) * PAGE_SIZE + 32772]), Held(mb, n + 34))
  }
  function After4(mb: nat, n: nat): State { State(Halves(n * PAGE_SIZE, (n + 18) * PAGE_SIZE, []), Held(mb, n + 34)) }
  function After5(mb: nat, n: nat): State { State(Halves(n * PAGE_SIZE, (n + 18) * PAGE_SIZE, []), Gap(mb, n)) }
  function After6(mb: nat, n: nat): State {
    var p, u, l := n * PAGE_SIZE, (n + 18) * PAGE_SIZE, (n + 1) * PAGE_SIZE;
    State(LowerRegion(p, u, l, [l + 32]), Held(mb, n + 34))
  }
  function After7(mb: nat, n: nat): State {
    var p, u, l := n * PAGE_SIZE, (n + 18) * PAGE_SIZE, (n + 1) * PAGE_SIZE;
    State(LowerRegion(p, u, l, [l + 32, u]), Held(mb, n + 34))
  }

  function Last1(n: nat): seq<Op> { [Free((n + 18) * PAGE_SIZE, 0, false)] }
  function Last3(mb: nat, n: nat): seq<Op> { [Traffic(Gap(mb, n))] + ([Malloc(8)] + Last1(n)) }
  function Last5(mb: nat, n: nat): seq<Op> { [Malloc(32752)] + ([Malloc(32744)] + Last3(mb, n)) }

  lemma Ends1(mb: nat, n: nat)
    requires 0 < n && Shape(After6(mb, n))
    ensures Leads(After6(mb, n), Last1(n), After7(mb, n))
  {
    var p, u, l := n * PAGE_SIZE, (n + 18) * PAGE_SIZE, (n + 1) * PAGE_SIZE;
    hide Shape, Leads, Held, LowerRegion;
    LastFree(After6(mb, n), p, u, l);
  }

  lemma LastFree(st: State, p: nat, u: nat, l: nat)
    requires Shape(st) && st.heap == LowerRegion(p, u, l, [l + 32]) && l + HEAP_GROW < u && p < l
    ensures Used(st.heap, u) && Leads(st, [Free(u, 0, false)], st.(heap := LowerRegion(p, u, l, [l + 32, u])))
  {
    assert [l + 32] + [u] == [l + 32, u];
    FreeLeads(st, u);
  }

  lemma Ends3(mb: nat, n: nat)
    requires 0 < n && n + 34 <= mb * 256 && Shape(After4(mb, n))
    ensures Leads(After4(mb, n), Last3(mb, n), After7(mb, n))
  {
    hide Shape, Leads, MallocState, KeepsRegions, Held, Gap, Halves, LowerRegion, Last1;
    GapTraffic(mb, n);
    TrafficGives(After4(mb, n), Gap(mb, n));
    CutLower(mb, n);
    MallocGives(After5(mb, n), 8, After6(mb, n));
    Ends1(mb, n);
    MallocLeads(After5(mb, n), 8, After6(mb, n), Last1(n), After7(mb, n));
    TrafficLeads(After4(mb, n), Gap(mb, n), [Malloc(8)] + Last1(n), After7(mb, n));
  }

  lemma Ends5(mb: nat, n: nat)
    requires 0 < n && n + 34 <= mb * 256 && Shape(After2(mb, n))
    ensures Leads(After2(mb, n), Last5(mb, n), After7(mb, n))
  {
    hide Shape, Leads, MallocState, Held, Halves, FullPage, Last3, After7;
    CutUpper(mb, n);
    MallocGives(After2(mb, n), 32752, After3(mb, n));
    TakeUpper(After3(mb, n), n * PAGE_SIZE, (n + 18) * PAGE_SIZE);
    MallocGives(After3(mb, n), 32744, After4(mb, n));
    Ends3(mb, n);
    MallocLeads(After3(mb, n), 32744, After4(mb, n), Last3(mb, n), After7(mb, n));
    MallocLeads(After2(mb, n), 32752, After3(mb, n), [Malloc(32744)] + Last3(mb, n), After7(mb, n));
  }

  /**
    Seventeen frames are taken by other code; 4072 bytes fill the first page; two requests fill a region of 64 KB;
    sixteen of the frames come back, and the next request gets a region there; the first half is freed, with a
    word before its region that the test rejects.
   */
  function HalvesOps(mb: nat): seq<Op> {
    [Traffic(Held(mb, HeapFrame(mb) + 18))] + ([Malloc(4072)] + Last5(mb, HeapFrame(mb)))
  }

  function HalvesState(mb: nat): State { After7(mb, HeapFrame(mb)) }

  lemma HalvesFrom(mb: nat, n: nat)
    requires 0 < n && n + 34 <= mb * 256 && Shape(State(BootHeap(n * PAGE_SIZE), Held(mb, n + 1)))
    ensures Leads(State(BootHeap(n * PAGE_SIZE), Held(mb, n + 1)),
                  [Traffic(Held(mb, n + 18))] + ([Malloc(4072)] + Last5(mb, n)), After7(mb, n))
  {
    hide Shape, Leads, MallocState, KeepsRegions, Held, BootHeap, FullPage, Last5, After7;
    var st := State(BootHeap(n * PAGE_SIZE), Held(mb, n + 1));
    MoreTraffic(mb, n);
    TrafficGives(st, Held(mb, n + 18));
    FillsThePage(After1(mb, n), n * PAGE_SIZE);
    MallocGives(After1(mb, n), 4072, After2(mb, n));
    Ends5(mb, n);
    MallocLeads(After1(mb, n), 4072, After2(mb, n), Last5(mb, n), After7(mb, n));
    TrafficLeads(st, Held(mb, n + 18), [Malloc(4072)] + Last5(mb, n), After7(mb, n));
  }

  /** The run is legal and ends in the state with the first half free and the second in use. */
  lemma HalvesRun(mb: nat)
    requires 5 <= mb <= MAX_RAM_MB
    ensures Leads(BootState(mb), HalvesOps(mb), HalvesState(mb))
  {
    hide Shape, Leads, Held, BootHeap, Last5, After7, HeapFrame, High, LowHeld, Boots, TakeState;
    BootStarts(mb);
    HalvesFrom(mb, HeapFrame(mb));
  }

  lemma HalvesTests(r: Raw, st: State, p: nat, u: nat, l: nat)
    requires Describes(r, st) && st.heap == LowerRegion(p, u, l, [l + 32, u]) && p < l && l + HEAP_GROW < u
    ensures var h, a := st.heap, u + 32772;
            && PrevAccepted(r.m, a, h.end) && PrevFound(r.m, a, h.end) == u && !NextAccepted(r.m, u + HEAP_GROW, h.end)
            && Readable(r.m, a, h.end) && TestsRight(r.m, h, a) && Tame(r.m, h, a)
  {
    var h, a := st.heap, u + 32772;
    Placed(st, a);
    Placed(st, u);
    assert StampedAt(r.m, h.blocks, u) && StampedAt(r.m, h.blocks, a);
    assert LinkedAt(r.m, h.free, 1);
    hide Shape, Written;
  }

  lemma HalvesBytes(p: nat, u: nat, l: nat)
    requires p < l && l + HEAP_GROW < u
    ensures Listed(LowerRegion(p, u, l, [l + 32, u])) && FreeBytes(LowerRegion(p, u, l, [l + 32, u])) == 65504 + 32772
  {
    var blocks := LowerRegion(p, u, l, [l + 32, u]).blocks;
    BytesAppend(blocks, [], l + 32);
    BytesAppend(blocks, [l + 32], u);
    assert [] + [l + 32] == [l + 32] && [l + 32] + [u] == [l + 32, u];
  }

  /**
    The second half is freed. Its test finds the first half, the other test is out of its window, and both halves
    are lost: they are one block, in use by nobody.
   */
  ghost predicate BothLost(r: Raw, st: State, u: nat, r': Raw) {
    var h := st.heap;
    && Shape(st) && Used(h, u + 32772) && u in h.free && u in h.blocks && FreeBytes(h) == 65504 + 32772
    && !FreesRightly(r, st, u + 32772) && FreeWrites(r, h.end, u + 32772, r')
    && var h' := FreePrev(h, u, u + 32772);
       Describes(r', st.(heap := h')) && FreeBytes(h') == 65504 && Used(h', u)
  }

  /** That is what happens at the end of that run. */
  lemma HalvesAreLost(mb: nat, r: Raw) returns (r': Raw)
    requires 5 <= mb <= MAX_RAM_MB && Describes(r, HalvesState(mb))
    ensures Leads(BootState(mb), HalvesOps(mb), HalvesState(mb))
    ensures BothLost(r, HalvesState(mb), (HeapFrame(mb) + 18) * PAGE_SIZE, r')
  {
    hide Held, HalvesOps, Leads, BootState, BothLost, Describes, LowerRegion;
    HalvesRun(mb);
    assert HeapFrame(mb) >= 1025;
    hide HeapFrame;
    var n := HeapFrame(mb);
    r' := HalvesGone(r, HalvesState(mb), n * PAGE_SIZE, (n + 18) * PAGE_SIZE, (n + 1) * PAGE_SIZE);
  }

  lemma HalvesGone(r: Raw, st: State, p: nat, u: nat, l: nat) returns (r': Raw)
    requires Describes(r, st) && st.heap == LowerRegion(p, u, l, [l + 32, u])
    requires HEAP_GROW < p < l && l + HEAP_GROW < u
    ensures BothLost(r, st, u, r')
  {
    HalvesNotRight(r, st, p, u, l);
    HalvesBytes(p, u, l);
    HalvesTests(r, st, p, u, l);
    hide FreesRightly, Readable, Tame, FreeWrites, Written;
    PrevLosesBlock(st.heap, u, u + 32772);
    hide Shape, Tiled, ListOk, Bytes;
    r' := FreeDescribes(r, st, u + 32772);
  }

  lemma HalvesNotRight(r: Raw, st: State, p: nat, u: nat, l: nat)
    requires Describes(r, st) && st.heap == LowerRegion(p, u, l, [l + 32, u])
    requires HEAP_GROW < p < l && l + HEAP_GROW < u
    ensures u + 32772 in st.heap.blocks && !FreesRightly(r, st, u + 32772)
  {
    HalvesTests(r, st, p, u, l);
    hide Shape, Written, Readable, Tame, TestsRight, PrevAccepted, NextAccepted, FreesRightly;
    RightExactlyIf(r, st, u + 32772);
  }

  // ---------- Growth over scattered pages ----------

  /** The first page is full, and behind it one frame is free and the next one is not. */
  function Scattered(mb: nat, n: nat): State {
    State(FullPage(n * PAGE_SIZE), Frames(mb * 256, Below(n + 3) - {n + 1}))
  }

  lemma ScatteredTraffic(mb: nat, n: nat)
    requires 0 < n && n + 18 <= mb * 256 && Shape(State(FullPage(n * PAGE_SIZE), Held(mb, n + 1)))
    ensures KeepsRegions(State(FullPage(n * PAGE_SIZE), Held(mb, n + 1)), Scattered(mb, n).frames)
  {
    hide Shape, KeepsRegions, Below;
    PageTraffic(State(FullPage(n * PAGE_SIZE), Held(mb, n + 1)), n, Scattered(mb, n).frames);
  }

  lemma RowOfOne(mb: nat, n: nat)
    requires n + 3 <= mb * 256
    ensures LowestFree(Scattered(mb, n).frames) == n + 1 && FreeRun(Scattered(mb, n).frames, n + 1, GROW_PAGES) == 1
    ensures |Scattered(mb, n).frames.held| == n + 2
  {
    var fr := Scattered(mb, n).frames;
    LowestIs(fr, n + 1);
    assert n + 2 in fr.held && n + 1 !in fr.held;
    assert FreeRun(fr, n + 2, 15) == 0;
    assert Below(n + 3) == fr.held + {n + 1};
  }

  /** Seventeen frames are taken and sixteen pages become free; frame n + 1 is lost, part of no region. */
  ghost predicate OnePageLost(st: State, n: nat) {
    && Listed(st.heap) && FreeBytes(st.heap) == 0
    && FreeBytes(GrowState(st).heap) == 16 * PAGE_SIZE && |GrowState(st).frames.held| == |st.frames.held| + 17
    && forall s :: s in GrowState(st).heap.regions ==> !(s <= (n + 1) * PAGE_SIZE < GrowState(st).heap.regions[s])
  }

  /**
    After boot 4072 bytes fill the first page, and other code takes two frames and gives the first of them back.
    When the heap grows then, that frame is lost.
   */
  lemma ScatteredGrowth(mb: nat)
    requires 5 <= mb <= MAX_RAM_MB
    ensures var st := Scattered(mb, HeapFrame(mb));
            Leads(BootState(mb), [Malloc(4072), Traffic(st.frames)], st) && OnePageLost(st, HeapFrame(mb))
  {
    var n := HeapFrame(mb);
    FullAfterBoot(mb);
    BootStarts(mb);
    ScatteredTraffic(mb, n);
    hide HeapFrame, Leads, BootState, OnePageLost, Shape, KeepsRegions, MallocState;
    ScatteredLeads(mb, n, BootState(mb), FullState(mb));
    ScatteredLoses(mb, n);
  }

  lemma ScatteredLoses(mb: nat, n: nat)
    requires n + 19 <= mb * 256 && Shape(Scattered(mb, n))
    ensures OnePageLost(Scattered(mb, n), n)
  {
    RowOfOne(mb, n);
    hide FreeRun, LowestFreeFrom, OnePageLost, Shape;
    RowOfOneIsLost(Scattered(mb, n), n);
  }

  lemma RowOfOneIsLost(st: State, n: nat)
    requires Shape(st) && st.heap.free == [] && LowestFree(st.frames) == n + 1
    requires FreeRun(st.frames, n + 1, GROW_PAGES) == 1 && st.frames.total - |st.frames.held| >= 17
    ensures OnePageLost(st, n)
  {
    hide GrowState, FreeRun, LowestFreeFrom, Shape;
    FramesHeld(st);
    GrowBytes(st);
    forall s | s in GrowState(st).heap.regions ensures !(s <= (n + 1) * PAGE_SIZE < GrowState(st).heap.regions[s]) {
      LostPagesAreInNoRegion(st, s, n + 1);
    }
  }

  lemma ScatteredLeads(mb: nat, n: nat, s0: State, s1: State)
    requires Shape(s0) && MallocState(s0, 4072) == s1 && s1 == State(FullPage(n * PAGE_SIZE), Held(mb, n + 1))
    requires Shape(s1) && KeepsRegions(s1, Scattered(mb, n).frames)
    ensures Leads(s0, [Malloc(4072), Traffic(Scattered(mb, n).frames)], Scattered(mb, n))
    ensures Shape(Scattered(mb, n))
  {
    var st, fr := Scattered(mb, n), Scattered(mb, n).frames;
    TrafficGives(s1, fr);
    assert Leads(st, [], st);
    hide Shape, Leads, MallocState, KeepsRegions, Scattered;
    TrafficLeads(s1, fr, [], st);
    assert [Traffic(fr)] + [] == [Traffic(fr)];
    MallocLeads(s0, 4072, s1, [Traffic(fr)], st);
    assert [Malloc(4072)] + [Traffic(fr)] == [Malloc(4072), Traffic(fr)];
  }
}
