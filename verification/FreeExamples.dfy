/**
  Inputs on which kfree fails (src/memory/kmalloc.cpp): the first two requests after boot, a block that is merged
  with itself, and wrong merges that do no harm.
 */
module FreeExamples {

  import opened FrameAllocator
  import opened HeapModel
  import opened HeapMemory
  import opened HeapSteps
  import opened RawFree
  import opened FreeRight

  // ---------- The first requests after boot ----------

  /** The heap after kmalloc_init, with the page at p. */
  function BootHeap(p: nat): Heap {
    AddRegion(Heap(map[], [], map[], 0), p, PAGE_SIZE)
  }

  /** After one request for 8 bytes. */
  function OneTaken(p: nat): Heap {
    Heap(map[p := Block(32, p), p + 32 := Block(4064, p)], [p + 32], map[p := p + PAGE_SIZE], p + PAGE_SIZE)
  }

  /** After a second one. */
  function TwoTaken(p: nat): Heap {
    Heap(map[p := Block(32, p), p + 32 := Block(32, p), p + 64 := Block(4032, p)], [p + 64],
         map[p := p + PAGE_SIZE], p + PAGE_SIZE)
  }

  /** The frames from which kmalloc_init gets the page p. */
  ghost predicate Boots(fr: Frames, p: nat) {
    Sound(fr) && LowHeld(fr) && TakeResult(fr) == p != 0
  }

  lemma BootShape(fr: Frames, p: nat)
    requires Boots(fr, p)
    ensures Shape(State(BootHeap(p), TakeState(fr))) && p > HEAP_GROW
  {
    assert 0 in fr.held;
    TakenIsHigh(fr);
    TakenIsNew(fr);
    var st := State(Heap(map[], [], map[], 0), fr);
    MoreFramesKeepShape(st, TakeState(fr));
    RegionJoins(State(st.heap, TakeState(fr)), p, PAGE_SIZE);
  }

  /** A list of one block that is large enough: its front is taken. */
  lemma FrontIsTaken(st: State, a: nat)
    requires st.heap.free == [a] && a in st.heap.blocks && st.heap.blocks[a].size >= 64
    ensures MallocState(st, 8) == st.(heap := Split(st.heap, 0, 32)) && MallocResult(st, 8) == a + 16
  {
    assert Needed(8) == 32;
  }

  lemma FirstRequest(fr: Frames, p: nat)
    requires Boots(fr, p)
    ensures Shape(State(BootHeap(p), TakeState(fr)))
    ensures MallocState(State(BootHeap(p), TakeState(fr)), 8) == State(OneTaken(p), TakeState(fr))
    ensures MallocResult(State(BootHeap(p), TakeState(fr)), 8) == p + 16
    ensures Shape(State(OneTaken(p), TakeState(fr)))
  {
    hide Shape, TakeState, MallocState, MallocResult;
    BootShape(fr, p);
    MallocKeepsShape(State(BootHeap(p), TakeState(fr)), 8);
    FrontIsTaken(State(BootHeap(p), TakeState(fr)), p);
    assert Split(BootHeap(p), 0, 32) == OneTaken(p);
  }

  lemma SecondRequest(fr: Frames, p: nat)
    requires Boots(fr, p)
    ensures Shape(State(OneTaken(p), TakeState(fr)))
    ensures MallocState(State(OneTaken(p), TakeState(fr)), 8) == State(TwoTaken(p), TakeState(fr))
    ensures MallocResult(State(OneTaken(p), TakeState(fr)), 8) == p + 48
    ensures Shape(State(TwoTaken(p), TakeState(fr)))
  {
    hide Shape, TakeState, MallocState, MallocResult;
    FirstRequest(fr, p);
    MallocKeepsShape(State(OneTaken(p), TakeState(fr)), 8);
    FrontIsTaken(State(OneTaken(p), TakeState(fr)), p + 32);
    assert Split(OneTaken(p), 0, 32) == TwoTaken(p);
  }

  /** Two requests for 8 bytes, and the first one is freed: kfree swallows the second and is never right. */
  lemma FirstOfTwoIsWrong(fr: Frames, p: nat, r: Raw)
    requires Boots(fr, p) && Describes(r, State(TwoTaken(p), TakeState(fr)))
    requires Readable(r.m, p, TwoTaken(p).end) && Tame(r.m, TwoTaken(p), p)
    ensures Shape(State(TwoTaken(p), TakeState(fr))) && !FreesRightly(r, State(TwoTaken(p), TakeState(fr)), p)
  {
    var st := State(TwoTaken(p), TakeState(fr));
    SecondRequest(fr, p);
    TakenIsHigh(fr);
    RightExactlyIf(r, st, p);
  }

  /**
    One request for 8 bytes, and it is freed: right exactly if the test rejects the word before the page. If
    that word is zero, the block before is the block itself.
   */
  lemma OnlyOneIsRightIff(fr: Frames, p: nat, r: Raw)
    requires Boots(fr, p) && Describes(r, State(OneTaken(p), TakeState(fr)))
    requires Readable(r.m, p, OneTaken(p).end) && Tame(r.m, OneTaken(p), p)
    ensures Shape(State(OneTaken(p), TakeState(fr)))
    ensures FreesRightly(r, State(OneTaken(p), TakeState(fr)), p) <==> !PrevAccepted(r.m, p, OneTaken(p).end)
    ensures r.m[p - 4] == 0 ==> PrevFound(r.m, p, OneTaken(p).end) == p && PrevAccepted(r.m, p, OneTaken(p).end)
  {
    hide Shape, TakeState, TakeResult, Tame, FreesRightly;
    var st := State(OneTaken(p), TakeState(fr));
    FirstRequest(fr, p);
    TakenIsHigh(fr);
    RightExactlyIf(r, st, p);
    SizeWord(r.m, st.heap, p);
    SizeWord(r.m, st.heap, p + 32);
    hide Describes;
  }

  /** A header that is not of the heap: the magic number, but size zero and null links. */
  ghost predicate Counterfeit(r: Raw, n: nat) {
    Header(r.m, n) && r.m[n] == 0 && r.m[n + 4] == HEAP_MAGIC && r.m[n + 8] == 0 && r.m[n + 12] == 0 && r.head != n
  }

  /** A block of the size of a whose old next pointer leads twelve bytes below a, where no block is any more. */
  ghost predicate OldLink(r: Raw, a: nat, n: nat) {
    && Header(r.m, n) && Header(r.m, a) && r.m[n] == r.m[a] && r.m[n + 4] == HEAP_MAGIC
    && r.m[n + 8] + 12 == a && r.m[n + 8] != 0 && r.m[n + 12] == 0 && r.head != n
  }

  /**
    Why the exact condition takes the accepted headers and their links to be those of blocks: with a counterfeit
    behind the region, or with one particular old link, the wrong merge adds nothing to the size and kfree is
    right although the neighbour is no free block.
   */
  lemma WrongMergeIsHarmless(r: Raw, st: State, a: nat, n: nat)
    requires Describes(r, st) && Used(st.heap, a) && Readable(r.m, a, st.heap.end) && !PrevAccepted(r.m, a, st.heap.end)
    requires InRegion(st.heap, a) && n == a + st.heap.blocks[a].size < st.heap.end && n !in st.heap.free
    requires Counterfeit(r, n) || OldLink(r, a, n)
    ensures FreesRightly(r, st, a) && !SidesRight(r.m, st.heap, a)
  {
    hide Shape, Written, Tiled, ListOk, Hooked, Stays;
    hide OneLessUsed, UseKept, Bytes, FreeWrites, PrevAccepted, Readable, At;
    Basics(st);
    HarmlessWrites(r, st, a, n);
    var r' := HookedIs(r, st, a);
    PlainIsRight(st.heap, a);
    PlainStays(st.heap, a);
    assert FreedRight(r', st, a, FreePlain(st.heap, a));
  }

  lemma HarmlessWrites(r: Raw, st: State, a: nat, n: nat)
    requires Describes(r, st) && Used(st.heap, a) && Readable(r.m, a, st.heap.end) && !PrevAccepted(r.m, a, st.heap.end)
    requires n == a + st.heap.blocks[a].size < st.heap.end && (Counterfeit(r, n) || OldLink(r, a, n))
    ensures forall r' :: Hooked(r, a, r') ==> FreeWrites(r, st.heap.end, a, r')
  {
    Placed(st, a);
    assert StampedAt(r.m, st.heap.blocks, a);
    assert NextAccepted(r.m, n, st.heap.end);
    hide Describes, Hooked, PrevAccepted, Readable, NextWrites, FreeWrites, NextAccepted;
    forall r' | Hooked(r, a, r') ensures FreeWrites(r, st.heap.end, a, r') {
      HarmlessMerge(r, a, n, r');
      NextBranch(r, st.heap.end, a, n, r');
    }
  }

  lemma NextBranch(r: Raw, end: nat, a: nat, n: nat, r': Raw)
    requires Readable(r.m, a, end) && !PrevAccepted(r.m, a, end) && n == a + r.m[a] && NextAccepted(r.m, n, end)
    requires NextWrites(r, a, n, r')
    ensures FreeWrites(r, end, a, r')
  {
    hide NextWrites, BothWrites, PrevWrites, PlainWrites, PrevAccepted, NextAccepted;
  }

  lemma HarmlessMerge(r: Raw, a: nat, n: nat, r': Raw)
    requires (Counterfeit(r, n) || OldLink(r, a, n)) && Hooked(r, a, r')
    requires a < n == a + r.m[a] && a % 4 == 0 && r.m[a] >= MIN_BLOCK && r.m[n - 4] == r.m[a]
    ensures NextWrites(r, a, n, r')
  {
    hide Hooked, Unhook, Resize;
    if Counterfeit(r, n) {
      CounterfeitUnhook(r, n);
      ResizeBack(r.m, r.m, a);
    } else {
      OldLinkUnhook(r, a, n);
      ResizeBack(r.m, r.m[a := 0], a);
    }
  }

  lemma CounterfeitUnhook(r: Raw, n: nat)
    requires Counterfeit(r, n)
    ensures UnhookFits(r, n) && Unhook(r, n) == r
  {
  }

  lemma OldLinkUnhook(r: Raw, a: nat, n: nat)
    requires OldLink(r, a, n) && a < n
    ensures UnhookFits(r, n) && Unhook(r, n) == Raw(r.m[a := 0], r.head)
  {
  }

  lemma ResizeBack(m: Memory, m1: Memory, a: nat)
    requires a < |m| && m[a] >= MIN_BLOCK && a + m[a] <= |m| && m[a + m[a] - 4] == m[a]
    requires m1 == m || m1 == m[a := 0]
    ensures Resize(m1, a, m[a]) == m
  {
  }
}
