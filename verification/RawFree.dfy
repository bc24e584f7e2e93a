/**
  kfree as it writes, whatever the memory holds (src/memory/kmalloc.cpp:64-94, 293-366): the links that
  list_remove and list_append follow and the sizes that are added up are the words that happen to be there.
  Only addresses must lie in memory, and the walk of list_append must end.
 */
module RawFree {

  import opened FrameAllocator
  import opened HeapModel
  import opened HeapMemory
  import opened HeapSteps

  /** Memory and the head of the free list. */
  datatype Raw = Raw(m: Memory, head: nat)

  function Word(m: Memory, x: int): nat {
    if 0 <= x < |m| then m[x] else 0
  }

  function Set(m: Memory, x: int, v: nat): (m': Memory)
    ensures |m'| == |m|
  {
    if 0 <= x < |m| then m[x := v] else m
  }

  /** There is room for a header at x. */
  predicate Header(m: Memory, x: int) { 0 <= x && x % 4 == 0 && x + 16 <= |m| }

  predicate Pointer(m: Memory, x: nat) { x == 0 || Header(m, x) }

  // ---------- list_remove ----------

  /** The previous block is linked to the next one. */
  function Bypass(m: Memory, b: nat): Memory {
    if Word(m, b + 12) != 0 then Set(m, Word(m, b + 12) + 8, Word(m, b + 8)) else m
  }

  /** The next block, as b then names it, is linked to the previous one, and the head moves on if it was b. */
  function Unhook(r: Raw, b: nat): Raw {
    var m1 := Bypass(r.m, b);
    var m2 := if Word(m1, b + 8) != 0 then Set(m1, Word(m1, b + 8) + 12, Word(m1, b + 12)) else m1;
    Raw(m2, if r.head == b then Word(m2, b + 8) else r.head)
  }

  predicate UnhookFits(r: Raw, b: nat) {
    Header(r.m, b) && Pointer(r.m, Word(r.m, b + 12)) && Pointer(r.m, Word(Bypass(r.m, b), b + 8))
  }

  // ---------- list_append ----------

  /** The walk from x along the next pointers, to the one whose next pointer is null. */
  ghost predicate Walk(m: Memory, x: nat, chain: seq<nat>) {
    && chain != [] && chain[0] == x
    && forall i :: 0 <= i < |chain| ==> WalkAt(m, chain, i)
  }

  predicate WalkAt(m: Memory, chain: seq<nat>, i: int)
    requires 0 <= i < |chain|
  {
    chain[i] != 0 && Header(m, chain[i]) && Word(m, chain[i] + 8) == At(chain, i + 1)
  }

  function NoLinks(m: Memory, x: nat): Memory {
    Set(Set(m, x + 8, 0), x + 12, 0)
  }

  function LinkLast(m: Memory, last: nat, x: nat): Memory {
    Set(Set(m, last + 8, x), x + 12, last)
  }

  ghost predicate Hooked(r: Raw, x: nat, r': Raw) {
    var m1 := NoLinks(r.m, x);
    && Header(r.m, x)
    && if r.head == 0 then r' == Raw(m1, x)
       else exists chain :: Walk(m1, r.head, chain) && r' == Raw(LinkLast(m1, chain[|chain| - 1], x), r.head)
  }

  // ---------- kfree ----------

  /** The size word, and the footer where that size puts it. */
  function Resize(m: Memory, x: nat, size: nat): Memory {
    Set(Set(m, x, size), x + size - 4, size)
  }

  predicate ResizeFits(m: Memory, x: nat, size: nat) {
    x % 4 == 0 && size % 4 == 0 && 4 <= size && x + size <= |m|
  }

  ghost predicate BothWrites(r: Raw, p: nat, a: nat, n: nat, r': Raw) {
    var r1 := Unhook(r, p);
    var r2 := Unhook(r1, n);
    var size := Word(r2.m, p) + (Word(r2.m, a) + Word(r2.m, n));
    && UnhookFits(r, p) && UnhookFits(r1, n) && ResizeFits(r2.m, p, size)
    && Hooked(Raw(Resize(r2.m, p, size), r2.head), p, r')
  }

  ghost predicate PrevWrites(r: Raw, p: nat, a: nat, r': Raw) {
    var r1 := Unhook(r, p);
    var size := Word(r1.m, p) + Word(r1.m, a);
    && UnhookFits(r, p) && ResizeFits(r1.m, p, size)
    && r' == Raw(Resize(r1.m, p, size), r1.head)
  }

  ghost predicate NextWrites(r: Raw, a: nat, n: nat, r': Raw) {
    var r1 := Unhook(r, n);
    var size := Word(r1.m, a) + Word(r1.m, n);
    && UnhookFits(r, n) && ResizeFits(r1.m, a, size)
    && Hooked(Raw(Resize(r1.m, a, size), r1.head), a, r')
  }

  ghost predicate PlainWrites(r: Raw, a: nat, r': Raw) {
    var m1 := Set(r.m, a + 4, HEAP_MAGIC);
    var size := Word(m1, a);
    && ResizeFits(m1, a, size)
    && Hooked(Raw(Set(m1, a + size - 4, size), r.head), a, r')
  }

  /** The words that the tests read are in memory. */
  ghost predicate Readable(m: Memory, a: nat, end: nat) {
    && Header(m, a)
    && (a > end - HEAP_GROW ==> a >= 4 && Header(m, a - m[a - 4]))
    && (a + m[a] < end ==> Header(m, a + m[a]))
  }

  /** kfree of the block at a, with a valid header, ends and leaves r'. */
  ghost predicate FreeWrites(r: Raw, end: nat, a: nat, r': Raw) {
    && Readable(r.m, a, end)
    && var p, n := PrevFound(r.m, a, end), a + r.m[a];
       if PrevAccepted(r.m, a, end) && NextAccepted(r.m, n, end) then BothWrites(r, p, a, n, r')
       else if PrevAccepted(r.m, a, end) then PrevWrites(r, p, a, r')
       else if NextAccepted(r.m, n, end) then NextWrites(r, a, n, r')
       else PlainWrites(r, a, r')
  }

  /** kfree stays within memory, and ends. */
  ghost predicate Ends(r: Raw, end: nat, a: nat) {
    exists r' :: FreeWrites(r, end, a, r')
  }

  // ---------- On a written heap ----------

  /** The memory describes the heap, and the head is that of its list. */
  ghost predicate Describes(r: Raw, st: State) {
    Shape(st) && Written(r.m, st.heap) && |r.m| == st.frames.total * PAGE_SIZE && r.head == At(st.heap.free, 0)
  }

  lemma UnhookIsUnlink(r: Raw, free: seq<nat>, i: nat)
    requires i < |free| && r.head == At(free, 0) && InMemory(free, |r.m|) && Linked(r.m, free) && Spaced(free)
    requires forall k :: 0 <= k < |free| ==> free[k] % 4 == 0
    ensures UnhookFits(r, free[i]) && Unhook(r, free[i]) == Raw(Unlink(r.m, free, i), At(Without(free, i), 0))
  {
    assert LinkedAt(r.m, free, i);
  }

  lemma UnhookIs(r: Raw, st: State, b: nat)
    requires Describes(r, st) && b in st.heap.free
    ensures UnhookFits(r, b) && LinksOnly(r.m, Unhook(r, b).m, st.heap.free)
    ensures Describes(Unhook(r, b), st.(heap := st.heap.(free := Remove(st.heap.free, b))))
  {
    hide Unhook, UnhookFits, Written, Linked, Spaced;
    var free := st.heap.free;
    var i :| 0 <= i < |free| && free[i] == b;
    RemoveIs(free, b);
    Unlinked(st, r.m, i);
    forall k | 0 <= k < |free| ensures free[k] % 4 == 0 { Placed(st, free[k]); }
    hide Shape;
    UnhookIsUnlink(r, free, i);
  }

  lemma WalkEnds(m: Memory, x: nat, chain: seq<nat>, i: nat)
    requires Walk(m, x, chain) && i < |chain| && Word(m, chain[i] + 8) == 0
    ensures i == |chain| - 1
  {
    if i + 1 < |chain| { WalkGoesOn(m, x, chain, i); }
  }

  lemma WalkGoesOn(m: Memory, x: nat, chain: seq<nat>, i: nat)
    requires Walk(m, x, chain) && i + 1 < |chain|
    ensures Word(m, chain[i] + 8) == chain[i + 1] != 0
  {
    assert WalkAt(m, chain, i) && WalkAt(m, chain, i + 1);
  }

  lemma {:induction false} SameWalk(m: Memory, x: nat, c: seq<nat>, d: seq<nat>, i: nat)
    requires Walk(m, x, c) && Walk(m, x, d)
    ensures (i < |c| || i < |d|) ==> i < |c| && i < |d| && c[i] == d[i]
    ensures i == |c| ==> c == d
  {
    if i > 0 {
      SameWalk(m, x, c, d, i - 1);
      if i <= |c| { assert WalkAt(m, c, i - 1) && WalkAt(m, d, i - 1); }
      if i <= |d| { assert WalkAt(m, d, i - 1) && WalkAt(m, c, i - 1); }
      if i < |c| { assert WalkAt(m, c, i); }
      if i < |d| { assert WalkAt(m, d, i); }
    }
    if i == |c| {
      forall k | 0 <= k < |c| ensures k < |d| && c[k] == d[k] { SameWalk(m, x, c, d, k); }
    }
  }

  /** What list_append leaves on a proper list. */
  lemma HookedIs(r: Raw, st: State, x: nat) returns (r': Raw)
    requires Describes(r, st) && Used(st.heap, x)
    ensures Hooked(r, x, r') && forall r2 :: Hooked(r, x, r2) ==> r2 == r'
    ensures LinksOnly(r.m, r'.m, st.heap.free + [x]) && Describes(r', st.(heap := FreePlain(st.heap, x)))
  {
    var free := st.heap.free;
    Appended(st, r.m, x);
    Placed(st, x);
    forall k | 0 <= k < |free| ensures free[k] % 4 == 0 { Placed(st, free[k]); }
    hide Shape, Written, LinksOnly;
    r' := Raw(Append(r.m, free, x), At(free + [x], 0));
    if free != [] {
      WalkIsList(r.m, free, x);
      forall r2 | Hooked(r, x, r2) ensures r2 == r' { HookedOnce(r, free, x, r2); }
    }
  }

  lemma HookedOnce(r: Raw, free: seq<nat>, x: nat, r2: Raw)
    requires r.head != 0 && Walk(NoLinks(r.m, x), r.head, free) && Hooked(r, x, r2)
    ensures r2 == Raw(LinkLast(NoLinks(r.m, x), free[|free| - 1], x), r.head)
  {
    var m1 := NoLinks(r.m, x);
    var chain :| Walk(m1, r.head, chain) && r2 == Raw(LinkLast(m1, chain[|chain| - 1], x), r.head);
    SameWalk(m1, r.head, chain, free, |chain|);
  }

  lemma WalkIsList(m: Memory, free: seq<nat>, x: nat)
    requires InMemory(free, |m|) && x + 16 <= |m| && Linked(m, free) && free != []
    requires forall k :: 0 <= k < |free| ==> free[k] % 4 == 0 && (free[k] + 16 <= x || x + 16 <= free[k])
    ensures Walk(NoLinks(m, x), free[0], free)
  {
    forall i | 0 <= i < |free| ensures WalkAt(NoLinks(m, x), free, i) {
      assert LinkedAt(m, free, i);
    }
  }

  lemma ResizeIs(m: Memory, x: nat, size: nat)
    requires size >= MIN_BLOCK && x + size <= |m|
    ensures TwoWords(m, Resize(m, x, size), x, size)
  {
  }

  /** The size words of a block that has grown over others, which are not in the list. */
  lemma ResizeDescribes(r: Raw, st: State, blocks: map<nat, Block>, x: nat)
    requires Describes(r, st) && Used(st.heap, x) && Grown(st.heap, blocks, x)
    ensures ResizeFits(r.m, x, blocks[x].size) && TwoWords(r.m, Resize(r.m, x, blocks[x].size), x, blocks[x].size)
    ensures Describes(Raw(Resize(r.m, x, blocks[x].size), r.head), st.(heap := st.heap.(blocks := blocks)))
  {
    GrownFits(st, blocks, x);
    Placed(st.(heap := st.heap.(blocks := blocks)), x);
    ResizeIs(r.m, x, blocks[x].size);
    GrownIsWritten(st, r.m, Resize(r.m, x, blocks[x].size), blocks, x);
  }

  lemma NextIs(r: Raw, st: State, a: nat, n: nat) returns (r': Raw)
    requires Describes(r, st) && Used(st.heap, a) && n in st.heap.free && Adjoins(st.heap.blocks, a, n)
    ensures NextWrites(r, a, n, r') && forall r2 :: NextWrites(r, a, n, r2) ==> r2 == r'
    ensures Describes(r', st.(heap := FreeNext(st.heap, a))) && Touches(r.m, r'.m, st.heap, a)
  {
    hide Shape, Written, TwoWords, Tiled, LinksOnly, Touches;
    hide Merge, Remove, Hooked, Unhook, UnhookFits, Resize, ResizeFits;
    Basics(st);
    RemoveIs(st.heap.free, n);
    UnhookIs(r, st, n);
    var r1, st1 := Unhook(r, n), st.(heap := st.heap.(free := Remove(st.heap.free, n)));
    SizeWord(r1.m, st1.heap, a);
    SizeWord(r1.m, st1.heap, n);
    MergeGrows(st1, a, n);
    var blocks := Merge(st1.heap.blocks, a, n);
    ResizeDescribes(r1, st1, blocks, a);
    var r2, st2 := Raw(Resize(r1.m, a, blocks[a].size), r1.head), st1.(heap := st1.heap.(blocks := blocks));
    r' := HookedIs(r2, st2, a);
    FreeTouches(st, r.m, r1.m, r2.m, r'.m, st2.heap.free + [a], a, n, a);
  }

  lemma PrevIs(r: Raw, st: State, p: nat, a: nat) returns (r': Raw)
    requires Describes(r, st) && Used(st.heap, a) && p in st.heap.free && Adjoins(st.heap.blocks, p, a)
    ensures PrevWrites(r, p, a, r') && forall r2 :: PrevWrites(r, p, a, r2) ==> r2 == r'
    ensures Describes(r', st.(heap := FreePrev(st.heap, p, a))) && Touches(r.m, r'.m, st.heap, a)
  {
    hide Shape, Written, TwoWords, Tiled, LinksOnly, Touches, Merge, Remove, Unhook, UnhookFits, Resize, ResizeFits;
    Basics(st);
    RemoveIs(st.heap.free, p);
    UnhookIs(r, st, p);
    var r1, st1 := Unhook(r, p), st.(heap := st.heap.(free := Remove(st.heap.free, p)));
    SizeWord(r1.m, st1.heap, p);
    SizeWord(r1.m, st1.heap, a);
    MergeGrows(st1, p, a);
    var blocks := Merge(st1.heap.blocks, p, a);
    ResizeDescribes(r1, st1, blocks, p);
    r' := Raw(Resize(r1.m, p, blocks[p].size), r1.head);
    LinksSame(r'.m, []);
    FreeTouches(st, r.m, r1.m, r'.m, r'.m, [], p, a, a);
  }

  lemma BothIs(r: Raw, st: State, p: nat, a: nat, n: nat) returns (r': Raw)
    requires Describes(r, st) && Used(st.heap, a) && p in st.heap.free && Adjoins(st.heap.blocks, p, a)
    requires n in st.heap.free && n in Remove(st.heap.free, p)
    requires Adjoins(st.heap.blocks, a, n) && n in Merge(st.heap.blocks, p, a)
    ensures BothWrites(r, p, a, n, r') && forall r2 :: BothWrites(r, p, a, n, r2) ==> r2 == r'
    ensures Describes(r', st.(heap := FreeBoth(st.heap, p, a))) && Touches(r.m, r'.m, st.heap, a)
  {
    hide Shape, Written, TwoWords, Tiled, LinksOnly, Touches;
    hide Merge, Remove, Hooked, Unhook, UnhookFits, Resize, ResizeFits;
    Basics(st);
    RemoveIs(st.heap.free, p);
    UnhookIs(r, st, p);
    var r1, st1 := Unhook(r, p), st.(heap := st.heap.(free := Remove(st.heap.free, p)));
    Basics(st1);
    RemoveIs(st1.heap.free, n);
    UnhookIs(r1, st1, n);
    var r2, st2 := Unhook(r1, n), st1.(heap := st1.heap.(free := Remove(st1.heap.free, n)));
    LinksTrans(r.m, r1.m, r2.m, st.heap.free, st1.heap.free);
    SizeWord(r2.m, st2.heap, p);
    SizeWord(r2.m, st2.heap, a);
    SizeWord(r2.m, st2.heap, n);
    MergeThreeGrows(st2, p, a, n);
    var blocks := Merge(Merge(st2.heap.blocks, p, a), p, n);
    ResizeDescribes(r2, st2, blocks, p);
    var r3, st3 := Raw(Resize(r2.m, p, blocks[p].size), r2.head), st2.(heap := st2.heap.(blocks := blocks));
    r' := HookedIs(r3, st3, p);
    FreeTouches(st, r.m, r2.m, r3.m, r'.m, st3.heap.free + [p], p, n, a);
  }

  lemma PlainIs(r: Raw, st: State, a: nat) returns (r': Raw)
    requires Describes(r, st) && Used(st.heap, a)
    ensures PlainWrites(r, a, r') && forall r2 :: PlainWrites(r, a, r2) ==> r2 == r'
    ensures Describes(r', st.(heap := FreePlain(st.heap, a))) && Touches(r.m, r'.m, st.heap, a)
  {
    SizeWord(r.m, st.heap, a);
    Placed(st, a);
    assert StampedAt(r.m, st.heap.blocks, a);
    assert Set(Set(r.m, a + 4, HEAP_MAGIC), a + r.m[a] - 4, r.m[a]) == r.m;
    hide Written, Tiled, Touches, Hooked;
    r' := HookedIs(r, st, a);
    TouchLinks(st, r.m, r'.m, st.heap.free + [a], a);
  }

  lemma DescribesWithPrev(r: Raw, st: State, a: nat) returns (r': Raw)
    requires Describes(r, st) && Used(st.heap, a) && TestsRight(r.m, st.heap, a) && PrevAccepted(r.m, a, st.heap.end)
    ensures FreeWrites(r, st.heap.end, a, r') && forall r2 :: FreeWrites(r, st.heap.end, a, r2) ==> r2 == r'
    ensures ListOk(st.heap) && Touches(r.m, r'.m, st.heap, a) && Describes(r', st.(heap := FreedHeap(r.m, st.heap, a)))
  {
    var h, p, n := st.heap, PrevFound(r.m, a, st.heap.end), a + st.heap.blocks[a].size;
    FreeReads(r, st, a);
    hide Describes, Used, ListOk, Adjoins, Touches;
    hide TestsRight, FreedHeap, Readable, PrevAccepted, NextAccepted, PrevFound;
    hide BothWrites, PrevWrites, NextWrites, PlainWrites, FreeBoth, FreePrev, FreeNext, Merge, Remove;
    if NextAccepted(r.m, n, h.end) {
      r' := BothIs(r, st, p, a, n);
    } else {
      r' := PrevIs(r, st, p, a);
    }
  }

  lemma DescribesWithoutPrev(r: Raw, st: State, a: nat) returns (r': Raw)
    requires Describes(r, st) && Used(st.heap, a) && TestsRight(r.m, st.heap, a) && !PrevAccepted(r.m, a, st.heap.end)
    ensures FreeWrites(r, st.heap.end, a, r') && forall r2 :: FreeWrites(r, st.heap.end, a, r2) ==> r2 == r'
    ensures ListOk(st.heap) && Touches(r.m, r'.m, st.heap, a) && Describes(r', st.(heap := FreedHeap(r.m, st.heap, a)))
  {
    var h, n := st.heap, a + st.heap.blocks[a].size;
    FreeReads(r, st, a);
    hide Describes, Used, ListOk, Adjoins, Touches;
    hide TestsRight, FreedHeap, Readable, PrevAccepted, NextAccepted, PrevFound;
    hide BothWrites, PrevWrites, NextWrites, PlainWrites, FreeBoth, FreePrev, FreeNext, Merge, Remove;
    if NextAccepted(r.m, n, h.end) {
      r' := NextIs(r, st, a, n);
    } else {
      r' := PlainIs(r, st, a);
    }
  }

  /** What kfree writes, when its tests are right, describes the heap with the block freed. */
  lemma FreeDescribes(r: Raw, st: State, a: nat) returns (r': Raw)
    requires Describes(r, st) && Used(st.heap, a) && TestsRight(r.m, st.heap, a)
    ensures FreeWrites(r, st.heap.end, a, r') && forall r2 :: FreeWrites(r, st.heap.end, a, r2) ==> r2 == r'
    ensures ListOk(st.heap) && Touches(r.m, r'.m, st.heap, a) && Describes(r', st.(heap := FreedHeap(r.m, st.heap, a)))
  {
    if PrevAccepted(r.m, a, st.heap.end) {
      r' := DescribesWithPrev(r, st, a);
    } else {
      r' := DescribesWithoutPrev(r, st, a);
    }
    hide Describes, FreeWrites, FreedHeap, Touches, TestsRight, ListOk;
  }

  /** What kfree reads first, and which of the four results it then works for. */
  lemma FreeReads(r: Raw, st: State, a: nat)
    requires Describes(r, st) && Used(st.heap, a) && TestsRight(r.m, st.heap, a)
    ensures Readable(r.m, a, st.heap.end) && r.m[a] == st.heap.blocks[a].size && ListOk(st.heap)
    ensures var h, p, n := st.heap, PrevFound(r.m, a, st.heap.end), a + st.heap.blocks[a].size;
            var prev, next := PrevAccepted(r.m, a, h.end), NextAccepted(r.m, n, h.end);
            && (prev ==> p in h.free && Adjoins(h.blocks, p, a))
            && (next ==> n in h.free && Adjoins(h.blocks, a, n))
            && (prev && next ==>
                  n in Remove(h.free, p) && n in Merge(h.blocks, p, a) && FreedHeap(r.m, h, a) == FreeBoth(h, p, a))
            && (prev && !next ==> FreedHeap(r.m, h, a) == FreePrev(h, p, a))
            && (!prev && next ==> FreedHeap(r.m, h, a) == FreeNext(h, a))
            && (!prev && !next ==> FreedHeap(r.m, h, a) == FreePlain(h, a))
  {
    var h, p, n := st.heap, PrevFound(r.m, a, st.heap.end), a + st.heap.blocks[a].size;
    TestsReadable(st, r.m, a);
    SizeWord(r.m, h, a);
    Basics(st);
    Placed(st, a);
    hide Shape, Written, Tiled, Merge, Remove;
    if PrevAccepted(r.m, a, h.end) && NextAccepted(r.m, n, h.end) {
      BothListed(h, p, a, n);
    }
  }
}
