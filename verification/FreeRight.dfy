/**
  When kfree is right (src/memory/kmalloc.cpp:293-366). Its tests accept any neighbour with the magic number,
  which no block ever loses; so they also accept blocks in use, and at the border of a region whatever lies
  there.
 */
module FreeRight {

  import opened FrameAllocator
  import opened HeapModel
  import opened HeapMemory
  import opened HeapSteps
  import opened RawFree

  // ---------- What is right, and the condition ----------

  /** The free blocks that do not touch a stay as they are. */
  ghost predicate Stays(h: Heap, h': Heap, a: nat) {
    forall f :: f in h.free && f in h.blocks && !Adjoins(h.blocks, f, a) && !Adjoins(h.blocks, a, f) ==>
      f in h'.free && f in h'.blocks && h'.blocks[f] == h.blocks[f]
  }

  /** From h to h', in the same regions, a and nothing else went out of use. */
  ghost predicate OnlyFreed(h: Heap, h': Heap, a: nat) {
    h'.regions == h.regions && h'.end == h.end && OneLessUsed(h, h', a) && UseKept(h, h') && Stays(h, h', a)
  }

  /** The memory describes a heap in which only a went out of use, and all its bytes are free. */
  ghost predicate FreedRight(r': Raw, st: State, a: nat, h': Heap)
    requires Shape(st) && a in st.heap.blocks
  {
    && Describes(r', st.(heap := h')) && OnlyFreed(st.heap, h', a)
    && FreeBytes(h') == FreeBytes(st.heap) + st.heap.blocks[a].size
  }

  ghost predicate FreesRightly(r: Raw, st: State, a: nat)
    requires Shape(st) && a in st.heap.blocks
  {
    exists r', h' :: FreeWrites(r, st.heap.end, a, r') && FreedRight(r', st, a, h')
  }

  /** Outside the window, or at the start of the region with a border word that is rejected, or a free block. */
  ghost predicate PrevSide(m: Memory, h: Heap, a: nat)
    requires a in h.blocks
  {
    || a <= h.end - HEAP_GROW
    || (a == h.blocks[a].region && !PrevAccepted(m, a, h.end))
    || (exists q :: q in h.free && Adjoins(h.blocks, q, a))
  }

  ghost predicate NextSide(m: Memory, h: Heap, a: nat)
    requires InRegion(h, a)
  {
    var n := a + h.blocks[a].size;
    || n >= h.end
    || (n == h.regions[h.blocks[a].region] && !NextAccepted(m, n, h.end))
    || (n in h.free && Adjoins(h.blocks, a, n))
  }

  ghost predicate InRegion(h: Heap, a: nat) { a in h.blocks && h.blocks[a].region in h.regions }

  ghost predicate SidesRight(m: Memory, h: Heap, a: nat)
    requires InRegion(h, a)
  {
    && PrevSide(m, h, a) && NextSide(m, h, a)
    && !(PrevAccepted(m, a, h.end) && !NextAccepted(m, a + h.blocks[a].size, h.end))
  }

  // ---------- What is taken for granted ----------

  /** No region is longer than 64 KB, and the heap lies above the first 64 KB: no size is an address. */
  ghost predicate High(h: Heap) {
    forall s :: s in h.regions ==> HEAP_GROW < s && h.regions[s] - s <= HEAP_GROW
  }

  ghost predicate LinksLead(m: Memory, blocks: map<nat, Block>, b: nat) {
    && (Word(m, b + 8) == 0 || Word(m, b + 8) in blocks)
    && (Word(m, b + 12) == 0 || Word(m, b + 12) in blocks)
  }

  /** A header that the tests accept is one of this heap, and its links, old ones if it is in use, lead to blocks. */
  ghost predicate Tame(m: Memory, h: Heap, a: nat)
    requires a in h.blocks
  {
    var p, n := PrevFound(m, a, h.end), a + h.blocks[a].size;
    && (PrevAccepted(m, a, h.end) ==> p in h.blocks && LinksLead(m, h.blocks, p))
    && (NextAccepted(m, n, h.end) ==> n in h.blocks && LinksLead(m, h.blocks, n))
  }

  // ---------- Which blocks must still be there ----------

  ghost predicate Result(h: Heap, h': Heap, a: nat) {
    Tiled(h) && Tiled(h') && RegionsApart(h.regions) && Listed(h) && Used(h, a) && OnlyFreed(h, h', a)
  }

  /** Every block but the first of its region has one before it. */
  lemma BeforeThere(h: Heap, x: nat) returns (q: nat)
    requires Tiled(h) && RegionsApart(h.regions) && x in h.blocks && x != h.blocks[x].region
    ensures Adjoins(h.blocks, q, x)
  {
    IsOk(h, x);
    q := Covered(h, h.blocks[x].region, x - 1, h.blocks[x].region);
    Separate(h.blocks, q, x);
  }

  lemma Kept(h: Heap, h': Heap, a: nat, c: nat)
    requires Result(h, h', a) && c in h.blocks && c != a
    requires Used(h, c) || (!Adjoins(h.blocks, c, a) && !Adjoins(h.blocks, a, c))
    ensures c in h'.blocks && h'.blocks[c] == h.blocks[c]
  {
    assert Used(h, c) <==> c !in h.free;
  }

  /** The first block of a region is there; if it was freed, it is in the list. */
  lemma StartThere(h: Heap, h': Heap, a: nat)
    requires Result(h, h', a) && a == h.blocks[a].region
    ensures a in h'.blocks && a in h'.free && h'.blocks[a].region == a
  {
    IsOk(h, a);
    assert !Used(h', a);
  }

  /** So is the block before a, whatever its size is then. */
  lemma PrevThere(h: Heap, h': Heap, a: nat, q: nat)
    requires Result(h, h', a) && Adjoins(h.blocks, q, a)
    ensures q in h'.blocks && h'.blocks[q].region == h.blocks[a].region
    ensures q in h.free ==> q in h'.free
  {
    IsOk(h, q);
    IsOk(h, a);
    if Used(h, q) {
      Kept(h, h', a, q);
    } else if q != h.blocks[q].region {
      var u := BeforeThere(h, q);
      IsOk(h, u);
      Kept(h, h', a, u);
      IsOk(h', u);
    }
    assert q in h.free ==> !Used(h, q) && !Used(h', q);
  }

  /** If the block before a has its size, a is there too. */
  lemma ThenThere(h: Heap, h': Heap, a: nat, q: nat)
    requires Result(h, h', a) && Adjoins(h.blocks, q, a) && q in h'.blocks && h'.blocks[q] == h.blocks[q]
    ensures a in h'.blocks && h'.blocks[a].region == h.blocks[a].region
  {
    IsOk(h, q);
    IsOk(h, a);
    IsOk(h', q);
  }

  /** Where a ends its region, or has a block in use behind it, no block of h' reaches further. */
  lemma Room(h: Heap, h': Heap, a: nat, x: nat)
    requires Result(h, h', a) && x in h'.blocks && h'.blocks[x].region == h.blocks[a].region && x <= a
    requires h.blocks[a].region in h.regions
    requires a + h.blocks[a].size == h.regions[h.blocks[a].region] || Used(h, a + h.blocks[a].size)
    ensures x + h'.blocks[x].size <= a + h.blocks[a].size
  {
    var n := a + h.blocks[a].size;
    IsOk(h', x);
    IsOk(h, a);
    if Used(h, n) {
      Kept(h, h', a, n);
      Separate(h'.blocks, x, n);
    }
  }

  /** Where a free block n is behind a, no block of h' reaches beyond n. */
  lemma RoomBehind(h: Heap, h': Heap, a: nat, x: nat, n: nat)
    requires Result(h, h', a) && x in h'.blocks && h'.blocks[x].region == h.blocks[a].region && x <= a
    requires Adjoins(h.blocks, a, n)
    ensures x + h'.blocks[x].size <= n + h.blocks[n].size
  {
    var c := n + h.blocks[n].size;
    IsOk(h', x);
    IsOk(h, a);
    IsOk(h, n);
    if c in h.blocks && h.blocks[c].region == h.blocks[n].region {
      IsOk(h, c);
      Kept(h, h', a, c);
      Separate(h'.blocks, x, c);
    }
  }

  // ---------- Which words kfree can have changed ----------

  /** Only link words of blocks differ. */
  ghost predicate LinkWords(m: Memory, m': Memory, blocks: map<nat, Block>) {
    && |m'| == |m|
    && forall y :: 0 <= y < |m| && m'[y] != m[y] ==> exists c :: c in blocks && (y == c + 8 || y == c + 12)
  }

  ghost predicate AllSpaced(m: Memory, blocks: map<nat, Block>) {
    forall b, c :: b in blocks && c in blocks ==> b + 16 <= |m| && (b == c || b + 16 <= c || c + 16 <= b)
  }

  lemma BlocksSpaced(r: Raw, st: State)
    requires Describes(r, st)
    ensures AllSpaced(r.m, st.heap.blocks)
  {
    AllPlaced(st);
    forall b, c | b in st.heap.blocks && c in st.heap.blocks
      ensures b + 16 <= |r.m| && (b == c || b + 16 <= c || c + 16 <= b)
    {
      Separate(st.heap.blocks, b, c);
    }
  }

  /** list_remove of a block whose links lead to blocks writes only link words, and these still lead to blocks. */
  lemma UnhookTame(r: Raw, blocks: map<nat, Block>, b: nat, n: nat)
    requires AllSpaced(r.m, blocks) && b in blocks && LinksLead(r.m, blocks, b)
    requires n in blocks && LinksLead(r.m, blocks, n)
    ensures LinkWords(r.m, Unhook(r, b).m, blocks) && LinksLead(Unhook(r, b).m, blocks, n)
  {
    var x, y := Word(r.m, b + 8), Word(r.m, b + 12);
    assert Word(Bypass(r.m, b), b + 8) == x && Word(Bypass(r.m, b), b + 12) == y;
  }

  lemma SizeKept(m: Memory, m': Memory, blocks: map<nat, Block>, c: nat)
    requires AllSpaced(m, blocks) && LinkWords(m, m', blocks) && c in blocks
    ensures m'[c] == m[c]
  {
  }

  /** list_append writes its block's links and, somewhere, its block's address. */
  lemma HookedWord(r: Raw, x: nat, r': Raw, y: nat)
    requires Hooked(r, x, r') && y < |r.m| && y != x + 8 && y != x + 12
    ensures |r'.m| == |r.m| && (r'.m[y] == r.m[y] || r'.m[y] == x)
  {
  }

  lemma BothWord(r: Raw, st: State, p: nat, a: nat, n: nat, r': Raw)
    requires Describes(r, st) && p in st.heap.blocks && a in st.heap.blocks && n in st.heap.blocks
    requires LinksLead(r.m, st.heap.blocks, p) && LinksLead(r.m, st.heap.blocks, n) && BothWrites(r, p, a, n, r')
    ensures p < |r'.m|
    ensures r'.m[p] == st.heap.blocks[p].size + st.heap.blocks[a].size + st.heap.blocks[n].size || r'.m[p] == p
  {
    hide Shape, Written, Unhook, UnhookFits, Hooked, LinksLead, AllSpaced, Resize, Word;
    BlocksSpaced(r, st);
    SizeWord(r.m, st.heap, p);
    SizeWord(r.m, st.heap, a);
    SizeWord(r.m, st.heap, n);
    var r2 := Unhook(Unhook(r, p), n);
    UnhookTwice(r, st.heap.blocks, p, a, n);
    var size := Word(r2.m, p) + (Word(r2.m, a) + Word(r2.m, n));
    ResizeWord(r2.m, p, size);
    HookedWord(Raw(Resize(r2.m, p, size), r2.head), p, r', p);
  }

  lemma ResizeWord(m: Memory, x: nat, size: nat)
    requires ResizeFits(m, x, size) && size > 4
    ensures |Resize(m, x, size)| == |m| && x < |m| && Resize(m, x, size)[x] == size
  {
  }

  lemma UnhookTwice(r: Raw, blocks: map<nat, Block>, p: nat, a: nat, n: nat)
    requires AllSpaced(r.m, blocks) && p in blocks && a in blocks && n in blocks
    requires LinksLead(r.m, blocks, p) && LinksLead(r.m, blocks, n)
    ensures var m' := Unhook(Unhook(r, p), n).m;
            && |m'| == |r.m| && p + 16 <= |r.m| && a + 16 <= |r.m| && n + 16 <= |r.m|
            && Word(m', p) == r.m[p] && Word(m', a) == r.m[a] && Word(m', n) == r.m[n]
  {
    hide Unhook, LinkWords, LinksLead;
    UnhookTame(r, blocks, p, n);
    UnhookSizes(r, blocks, p, a, n);
    UnhookSizes(Unhook(r, p), blocks, n, p, a);
  }

  lemma UnhookSizes(r: Raw, blocks: map<nat, Block>, b: nat, c: nat, d: nat)
    requires AllSpaced(r.m, blocks) && b in blocks && LinksLead(r.m, blocks, b) && c in blocks && d in blocks
    ensures var m' := Unhook(r, b).m;
            |m'| == |r.m| && AllSpaced(m', blocks) && m'[b] == r.m[b] && m'[c] == r.m[c] && m'[d] == r.m[d]
  {
    UnhookTame(r, blocks, b, b);
    SizeKept(r.m, Unhook(r, b).m, blocks, b);
    SizeKept(r.m, Unhook(r, b).m, blocks, c);
    SizeKept(r.m, Unhook(r, b).m, blocks, d);
  }

  lemma PrevWord(r: Raw, st: State, p: nat, a: nat, r': Raw)
    requires Describes(r, st) && p in st.heap.blocks && a in st.heap.blocks
    requires LinksLead(r.m, st.heap.blocks, p) && PrevWrites(r, p, a, r')
    ensures p < |r'.m| && r'.m[p] == st.heap.blocks[p].size + st.heap.blocks[a].size
  {
    BlocksSpaced(r, st);
    SizeWord(r.m, st.heap, p);
    SizeWord(r.m, st.heap, a);
    hide Describes, Unhook, UnhookFits;
    UnhookSizes(r, st.heap.blocks, p, a, a);
  }

  lemma NextWord(r: Raw, st: State, a: nat, n: nat, r': Raw)
    requires Describes(r, st) && a in st.heap.blocks && n in st.heap.blocks && a <= n
    requires LinksLead(r.m, st.heap.blocks, n) && NextWrites(r, a, n, r')
    ensures a < |r'.m| && (r'.m[a] == st.heap.blocks[a].size + st.heap.blocks[n].size || r'.m[a] == a)
  {
    hide Shape, Written, Unhook, UnhookFits, Hooked, LinksLead, AllSpaced, Resize;
    BlocksSpaced(r, st);
    SizeWord(r.m, st.heap, a);
    SizeWord(r.m, st.heap, n);
    UnhookSizes(r, st.heap.blocks, n, a, a);
    var r1 := Unhook(r, n);
    var size := Word(r1.m, a) + Word(r1.m, n);
    ResizeWord(r1.m, a, size);
    HookedWord(Raw(Resize(r1.m, a, size), r1.head), a, r', a);
  }

  /** No block before a has another size, unless a's address was written over it. */
  lemma NextWordBefore(r: Raw, st: State, a: nat, n: nat, r': Raw, q: nat)
    requires Describes(r, st) && a in st.heap.blocks && n in st.heap.blocks && a <= n
    requires LinksLead(r.m, st.heap.blocks, n) && NextWrites(r, a, n, r') && q in st.heap.blocks && q < a
    ensures q < |r'.m| && (r'.m[q] == st.heap.blocks[q].size || r'.m[q] == a)
  {
    hide Shape, Written, Unhook, UnhookFits, Hooked, LinksLead, AllSpaced, Resize;
    BlocksSpaced(r, st);
    SizeWord(r.m, st.heap, a);
    SizeWord(r.m, st.heap, n);
    SizeWord(r.m, st.heap, q);
    UnhookSizes(r, st.heap.blocks, n, a, q);
    var r1 := Unhook(r, n);
    var size := Word(r1.m, a) + Word(r1.m, n);
    ResizeElsewhere(r1.m, a, size, q);
    HookedWord(Raw(Resize(r1.m, a, size), r1.head), a, r', q);
  }

  lemma ResizeElsewhere(m: Memory, x: nat, size: nat, y: nat)
    requires y < x && size > 4 && y < |m|
    ensures |Resize(m, x, size)| == |m| && Resize(m, x, size)[y] == m[y]
  {
  }

  // ---------- A right result needs right tests ----------

  /** kfree of a has left r', and that describes h', in which only a was freed. */
  ghost predicate Ran(r: Raw, st: State, a: nat, r': Raw, h': Heap) {
    && Describes(r, st) && Used(st.heap, a) && High(st.heap) && Tame(r.m, st.heap, a)
    && FreeWrites(r, st.heap.end, a, r') && Describes(r', st.(heap := h')) && OnlyFreed(st.heap, h', a)
  }

  lemma RanResult(r: Raw, st: State, a: nat, r': Raw, h': Heap)
    requires Ran(r, st, a, r', h')
    ensures Result(st.heap, h', a) && ListOk(st.heap) && ListOk(h') && Used(st.heap, a)
    ensures a + st.heap.blocks[a].size <= |r.m| && r.m[a] == st.heap.blocks[a].size
    ensures st.heap.blocks[a].size >= MIN_BLOCK
    ensures InRegion(st.heap, a) && BlockOk(st.heap.blocks, st.heap.regions, a)
  {
    SizeWord(r.m, st.heap, a);
    IsOk(st.heap, a);
  }

  lemma Branch(r: Raw, end: nat, a: nat, n: nat, r': Raw)
    requires FreeWrites(r, end, a, r') && a < |r.m| && n == a + r.m[a]
    ensures var p, prev, next := PrevFound(r.m, a, end), PrevAccepted(r.m, a, end), NextAccepted(r.m, n, end);
            && (prev && next ==> BothWrites(r, p, a, n, r')) && (prev && !next ==> PrevWrites(r, p, a, r'))
            && (!prev && next ==> NextWrites(r, a, n, r'))
  {
    hide BothWrites, PrevWrites, NextWrites, PlainWrites, PrevFound, PrevAccepted, NextAccepted, Readable;
  }

  /** What kfree of a has written, and what is known of the neighbours that it accepts. */
  lemma RanBranch(r: Raw, st: State, a: nat, r': Raw, h': Heap)
    requires Ran(r, st, a, r', h')
    ensures var h, p, n := st.heap, PrevFound(r.m, a, st.heap.end), a + st.heap.blocks[a].size;
            var prev, next := PrevAccepted(r.m, a, h.end), NextAccepted(r.m, n, h.end);
            && (prev ==> p in h.blocks && LinksLead(r.m, h.blocks, p))
            && (next ==> n in h.blocks && LinksLead(r.m, h.blocks, n) && h.blocks[n].size >= MIN_BLOCK)
            && (prev && next ==> BothWrites(r, p, a, n, r')) && (prev && !next ==> PrevWrites(r, p, a, r'))
            && (!prev && next ==> NextWrites(r, a, n, r'))
  {
    hide Shape, Written, BothWrites, PrevWrites, NextWrites, PrevFound, PrevAccepted, NextAccepted, FreeWrites;
    hide OnlyFreed, LinksLead, High, At;
    var n := a + st.heap.blocks[a].size;
    SizeWord(r.m, st.heap, a);
    Branch(r, st.heap.end, a, n, r');
    if NextAccepted(r.m, n, st.heap.end) { SizeWord(r.m, st.heap, n); }
  }

  /** A size word of the result: smaller than any address of a block. */
  lemma SizeIs(r: Raw, st: State, a: nat, r': Raw, h': Heap, x: nat)
    requires Ran(r, st, a, r', h') && x in h'.blocks
    ensures x < |r'.m| && r'.m[x] == h'.blocks[x].size <= HEAP_GROW < x
  {
    SizeWord(r'.m, h', x);
    IsOk(h', x);
  }

  /** The block before a, if it is not free, or any other block of the heap cannot have grown. */
  lemma PrevIsNotOther(r: Raw, st: State, a: nat, r': Raw, h': Heap)
    requires Ran(r, st, a, r', h') && PrevAccepted(r.m, a, st.heap.end)
    ensures var p := PrevFound(r.m, a, st.heap.end); p == a || (p in st.heap.free && Adjoins(st.heap.blocks, p, a))
  {
    hide Ran, Result, Describes, PrevWrites, BothWrites, LinksLead, NextAccepted;
    RanResult(r, st, a, r', h');
    RanLists(r, st, a, r', h');
    RanBranch(r, st, a, r', h');
    var h, p, n := st.heap, PrevFound(r.m, a, st.heap.end), a + st.heap.blocks[a].size;
    if p != a && !(p in h.free && Adjoins(h.blocks, p, a)) {
      Kept(h, h', a, p);
      SizeIs(r, st, a, r', h', p);
      if NextAccepted(r.m, n, h.end) {
        BothWord(r, st, p, a, n, r');
      } else {
        PrevWord(r, st, p, a, r');
      }
    }
  }

  /** What the first block of a region can be: not longer than a and the next block together. */
  lemma StartRoom(h: Heap, h': Heap, a: nat, n: nat)
    requires Result(h, h', a) && a == h.blocks[a].region && n == a + h.blocks[a].size && n in h.blocks
    ensures a in h'.blocks && h'.blocks[a].size <= h.blocks[a].size + h.blocks[n].size
  {
    StartThere(h, h', a);
    IsOk(h, a);
    hide OnlyFreed, Tiled;
    if n == h.regions[a] || Used(h, n) {
      Room(h, h', a, a);
    } else {
      RoomBehind(h, h', a, a, n);
    }
  }

  lemma BothRan(r: Raw, st: State, a: nat, r': Raw, h': Heap)
    requires Used(st.heap, a) && PrevAccepted(r.m, a, st.heap.end)
    requires NextAccepted(r.m, a + st.heap.blocks[a].size, st.heap.end) && Ran(r, st, a, r', h')
    ensures var p, n := PrevFound(r.m, a, st.heap.end), a + st.heap.blocks[a].size;
            && p in st.heap.blocks && n in st.heap.blocks && st.heap.blocks[n].size >= MIN_BLOCK && p < |r'.m|
            && (r'.m[p] == st.heap.blocks[p].size + st.heap.blocks[a].size + st.heap.blocks[n].size || r'.m[p] == p)
  {
    hide Ran, Result, Describes, BothWrites, LinksLead, PrevAccepted, NextAccepted, PrevFound;
    RanResult(r, st, a, r', h');
    RanLists(r, st, a, r', h');
    RanBranch(r, st, a, r', h');
    BothWord(r, st, PrevFound(r.m, a, st.heap.end), a, a + st.heap.blocks[a].size, r');
  }

  /** A block that is merged with itself and the next one is too long for its region. */
  lemma SelfIsTooLong(r: Raw, st: State, a: nat, r': Raw, h': Heap)
    requires Ran(r, st, a, r', h') && PrevAccepted(r.m, a, st.heap.end) && PrevFound(r.m, a, st.heap.end) == a
    requires a == st.heap.blocks[a].region
    ensures !NextAccepted(r.m, a + st.heap.blocks[a].size, st.heap.end)
  {
    hide Describes, OnlyFreed, FreeWrites, Tame, High, PrevAccepted, Result;
    RanResult(r, st, a, r', h');
    if NextAccepted(r.m, a + st.heap.blocks[a].size, st.heap.end) {
      BothRan(r, st, a, r', h');
      StartRoom(st.heap, h', a, a + st.heap.blocks[a].size);
      SizeIs(r, st, a, r', h', a);
    }
  }

  /** What list_remove of a block in use and its new size do to the list's next pointers. */
  lemma SelfWords(r: Raw, st: State, a: nat, r': Raw)
    requires Describes(r, st) && Used(st.heap, a) && LinksLead(r.m, st.heap.blocks, a) && PrevWrites(r, a, a, r')
    ensures |r'.m| == |r.m| && r'.head == r.head && AllSpaced(r.m, st.heap.blocks)
    ensures r'.m[a] == 2 * st.heap.blocks[a].size && r'.m[a + 8] == r.m[a + 8]
    ensures forall c :: c in st.heap.blocks ==>
              r'.m[c + 8] == r.m[c + 8] || r'.m[c + 8] == r.m[a + 8] || r'.m[c + 8] == 2 * st.heap.blocks[a].size
  {
    var blocks := st.heap.blocks;
    BlocksSpaced(r, st);
    AllPlaced(st);
    SizeWord(r.m, st.heap, a);
    hide Shape, Written, Tiled;
    var x, y := Word(r.m, a + 8), Word(r.m, a + 12);
    assert Word(Bypass(r.m, a), a + 8) == x && Word(Bypass(r.m, a), a + 12) == y;
    UnhookSizes(r, blocks, a, a, a);
  }

  /** Two lists from one head: if next pointers changed only to x or s, which are not new in the list, nothing is. */
  lemma {:induction false} ListWasFree(m: Memory, m': Memory, free: seq<nat>, free': seq<nat>, x: nat, s: nat, i: nat)
    requires Linked(m, free) && Linked(m', free') && i < |free'| && At(free', 0) == At(free, 0) && 0 !in free'
    requires forall c :: c in free && c + 16 <= |m| && c + 16 <= |m'| ==>
               m'[c + 8] == m[c + 8] || m'[c + 8] == x || m'[c + 8] == s
    requires (x in free' ==> x in free) && s !in free'
    ensures free'[i] in free
  {
    if i > 0 {
      ListWasFree(m, m', free, free', x, s, i - 1);
      var k :| 0 <= k < |free| && free[k] == free'[i - 1];
      assert LinkedAt(m', free', i - 1) && LinkedAt(m, free, k);
    }
  }

  lemma NextIsOther(m: Memory, h: Heap, i: nat)
    requires Linked(m, h.free) && ListOk(h) && i < |h.free| && h.free[i] != 0
    ensures h.free[i] + 16 <= |m| && m[h.free[i] + 8] != h.free[i]
  {
    assert LinkedAt(m, h.free, i);
  }

  /** Where the next pointer of a block in use leads, in the result: not into the list, unless it was free. */
  lemma StaleNext(r: Raw, st: State, a: nat, r': Raw, h': Heap, x: nat)
    requires Ran(r, st, a, r', h') && (x == 0 || x in st.heap.blocks) && x != a
    ensures 0 !in h'.free && (x in h'.free ==> x in st.heap.free)
  {
    AllPlaced(st.(heap := h'));
    hide Shape, Written, FreeWrites, Tame;
    if x in st.heap.blocks && x !in st.heap.free { assert Used(st.heap, x) && Used(h', x); }
  }

  lemma SmallIsNoBlock(r: Raw, st: State, a: nat, r': Raw, h': Heap, s: nat)
    requires Ran(r, st, a, r', h') && s <= HEAP_GROW
    ensures s !in h'.free
  {
    if s in h'.free { SizeIs(r, st, a, r', h', s); }
  }

  /** A block merged with itself only is in no list. */
  lemma SelfIsLost(r: Raw, st: State, a: nat, r': Raw, h': Heap)
    requires Ran(r, st, a, r', h') && PrevWrites(r, a, a, r') && LinksLead(r.m, st.heap.blocks, a)
    requires 2 * st.heap.blocks[a].size <= HEAP_GROW
    ensures a !in h'.free
  {
    hide Ran, Result, Describes, PrevWrites, ListOk, AllSpaced, BlockOk;
    RanResult(r, st, a, r', h');
    RanLists(r, st, a, r', h');
    var x, s := Word(r.m, a + 8), 2 * st.heap.blocks[a].size;
    SelfWords(r, st, a, r');
    SmallIsNoBlock(r, st, a, r', h', s);
    if x != a { StaleNext(r, st, a, r', h', x); }
    if i :| 0 <= i < |h'.free| && h'.free[i] == a {
      if x == a {
        NextIsOther(r'.m, h', i);
      } else {
        ListWasFree(r.m, r'.m, st.heap.free, h'.free, x, s, i);
      }
    }
  }

  lemma RanLists(r: Raw, st: State, a: nat, r': Raw, h': Heap)
    requires Ran(r, st, a, r', h')
    ensures Linked(r.m, st.heap.free) && Linked(r'.m, h'.free)
    ensures r.head == At(st.heap.free, 0) && r'.head == At(h'.free, 0)
    ensures forall c :: c in st.heap.free ==> c in st.heap.blocks
    ensures a != 0 && Describes(r, st) && Describes(r', st.(heap := h'))
  {
    Placed(st, a);
    hide Shape, Stamped, FreeWrites, Tame, OnlyFreed;
  }

  /** A previous block that is accepted is the free block before a: no other one, and never a itself. */
  lemma PrevIsFree(r: Raw, st: State, a: nat, r': Raw, h': Heap)
    requires Ran(r, st, a, r', h') && PrevAccepted(r.m, a, st.heap.end)
    ensures var p := PrevFound(r.m, a, st.heap.end); p in st.heap.free && Adjoins(st.heap.blocks, p, a)
  {
    hide Ran, Result, Describes, PrevWrites, PrevAccepted, NextAccepted, PrevFound, BlockOk, LinksLead;
    RanResult(r, st, a, r', h');
    RanLists(r, st, a, r', h');
    PrevIsNotOther(r, st, a, r', h');
    if PrevFound(r.m, a, st.heap.end) == a {
      NotSelfInside(r, st, a);
      StartThere(st.heap, h', a);
      if NextAccepted(r.m, a + st.heap.blocks[a].size, st.heap.end) {
        SelfIsTooLong(r, st, a, r', h');
      } else {
        PrevRan(r, st, a, r', h');
        SelfLeads(r, st, a, r', h');
        SelfWords(r, st, a, r');
        SizeIs(r, st, a, r', h', a);
        SelfIsLost(r, st, a, r', h');
      }
    }
  }

  lemma SelfLeads(r: Raw, st: State, a: nat, r': Raw, h': Heap)
    requires Ran(r, st, a, r', h') && PrevAccepted(r.m, a, st.heap.end) && PrevFound(r.m, a, st.heap.end) == a
    ensures LinksLead(r.m, st.heap.blocks, a)
  {
    hide Describes, FreeWrites, OnlyFreed, High, LinksLead;
  }

  /** The word before a block is the size of the block before it, so only the first of a region can find itself. */
  lemma NotSelfInside(r: Raw, st: State, a: nat)
    requires Describes(r, st) && a in st.heap.blocks && PrevAccepted(r.m, a, st.heap.end)
    ensures a != st.heap.blocks[a].region ==>
              exists q: nat :: Adjoins(st.heap.blocks, q, a) && PrevFound(r.m, a, st.heap.end) == q && q < a
  {
    if a != st.heap.blocks[a].region {
      var q := BeforeThere(st.heap, a);
      assert StampedAt(r.m, st.heap.blocks, q);
    }
  }

  /** Two lists from one head through the same words are one list. */
  lemma {:induction false} SameList(m: Memory, c: seq<nat>, d: seq<nat>, i: nat)
    requires Linked(m, c) && Linked(m, d) && At(c, 0) == At(d, 0) && 0 !in c && 0 !in d
    ensures At(c, i) == At(d, i)
  {
    if i > 0 {
      SameList(m, c, d, i - 1);
      if i - 1 < |c| { assert LinkedAt(m, c, i - 1) && LinkedAt(m, d, i - 1); }
    }
  }

  lemma SameListAs(r': Raw, st: State, h: Heap, h': Heap)
    requires Describes(r', st.(heap := h)) && Describes(r', st.(heap := h'))
    ensures forall x :: x in h.free ==> x in h'.free
  {
    AllPlaced(st.(heap := h));
    AllPlaced(st.(heap := h'));
    hide Shape, Stamped;
    forall x | x in h.free ensures x in h'.free {
      var i :| 0 <= i < |h.free| && h.free[i] == x;
      SameList(r'.m, h.free, h'.free, i);
    }
  }

  lemma PrevRan(r: Raw, st: State, a: nat, r': Raw, h': Heap)
    requires Ran(r, st, a, r', h') && PrevAccepted(r.m, a, st.heap.end)
    requires !NextAccepted(r.m, a + st.heap.blocks[a].size, st.heap.end)
    ensures PrevWrites(r, PrevFound(r.m, a, st.heap.end), a, r')
  {
    RanBranch(r, st, a, r', h');
    hide Ran, PrevWrites, BothWrites, NextWrites, PrevAccepted, NextAccepted, PrevFound, LinksLead;
  }

  /** Merged with the previous block only, that block has left the list. */
  lemma NotPrevOnly(r: Raw, st: State, a: nat, r': Raw, h': Heap)
    requires Ran(r, st, a, r', h') && PrevAccepted(r.m, a, st.heap.end)
    ensures NextAccepted(r.m, a + st.heap.blocks[a].size, st.heap.end)
  {
    hide Ran, Result, Describes, PrevWrites, PrevAccepted, NextAccepted, PrevFound, BlockOk, Remove, Merge;
    RanResult(r, st, a, r', h');
    RanLists(r, st, a, r', h');
    var p := PrevFound(r.m, a, st.heap.end);
    PrevIsFree(r, st, a, r', h');
    if !NextAccepted(r.m, a + st.heap.blocks[a].size, st.heap.end) {
      PrevRan(r, st, a, r', h');
      var r2 := PrevIs(r, st, p, a);
      PrevThere(st.heap, h', a, p);
      RemoveIs(st.heap.free, p);
      SameListAs(r', st, h', FreePrev(st.heap, p, a));
    }
  }

  lemma NextIsFree(r: Raw, st: State, a: nat, r': Raw, h': Heap)
    requires Ran(r, st, a, r', h') && NextAccepted(r.m, a + st.heap.blocks[a].size, st.heap.end)
    ensures var n := a + st.heap.blocks[a].size; n in st.heap.free && Adjoins(st.heap.blocks, a, n)
  {
    hide Ran, Result, PrevAccepted, NextAccepted, ListOk;
    RanResult(r, st, a, r', h');
    var h, n := st.heap, a + st.heap.blocks[a].size;
    if !(n in h.free && Adjoins(h.blocks, a, n)) {
      if PrevAccepted(r.m, a, h.end) {
        BothNeedFree(r, st, a, r', h');
      } else {
        NextNeedsFree(r, st, a, r', h');
      }
    }
  }

  /** After the merge with both, the block before a reaches to the end of the block behind a. */
  lemma BothNeedFree(r: Raw, st: State, a: nat, r': Raw, h': Heap)
    requires Ran(r, st, a, r', h') && PrevAccepted(r.m, a, st.heap.end)
    requires NextAccepted(r.m, a + st.heap.blocks[a].size, st.heap.end)
    ensures var n := a + st.heap.blocks[a].size;
            InRegion(st.heap, a) && n != st.heap.regions[st.heap.blocks[a].region] && !Used(st.heap, n)
  {
    hide Ran, Result, PrevAccepted, NextAccepted, PrevFound, ListOk;
    RanResult(r, st, a, r', h');
    var h, p, n := st.heap, PrevFound(r.m, a, st.heap.end), a + st.heap.blocks[a].size;
    PrevIsFree(r, st, a, r', h');
    BothRan(r, st, a, r', h');
    PrevThere(h, h', a, p);
    SizeIs(r, st, a, r', h', p);
    if n == h.regions[h.blocks[a].region] || Used(h, n) { Room(h, h', a, p); }
  }

  /** After the merge with the next block, a reaches to the end of that one. */
  lemma NextNeedsFree(r: Raw, st: State, a: nat, r': Raw, h': Heap)
    requires Ran(r, st, a, r', h') && !PrevAccepted(r.m, a, st.heap.end)
    requires NextAccepted(r.m, a + st.heap.blocks[a].size, st.heap.end)
    ensures var n := a + st.heap.blocks[a].size;
            InRegion(st.heap, a) && n != st.heap.regions[st.heap.blocks[a].region] && !Used(st.heap, n)
  {
    hide Ran, Result, Describes, NextWrites, LinksLead, PrevAccepted, NextAccepted;
    RanResult(r, st, a, r', h');
    RanLists(r, st, a, r', h');
    RanBranch(r, st, a, r', h');
    var h, n := st.heap, a + st.heap.blocks[a].size;
    NextWord(r, st, a, n, r');
    NextOnlyThere(r, st, a, r', h');
    SizeIs(r, st, a, r', h', a);
    if n == h.regions[h.blocks[a].region] || Used(h, n) { Room(h, h', a, a); }
  }

  /** After a merge with the next block only, a is a block of the result. */
  lemma NextOnlyThere(r: Raw, st: State, a: nat, r': Raw, h': Heap)
    requires Ran(r, st, a, r', h') && NextWrites(r, a, a + st.heap.blocks[a].size, r')
    requires a + st.heap.blocks[a].size in st.heap.blocks && LinksLead(r.m, st.heap.blocks, a + st.heap.blocks[a].size)
    ensures a in h'.blocks && h'.blocks[a].region == st.heap.blocks[a].region
  {
    var h := st.heap;
    RanResult(r, st, a, r', h');
    hide NextWrites, FreeWrites, Written, OnlyFreed, LinksLead;
    if a == h.blocks[a].region {
      StartThere(h, h', a);
    } else {
      var q := BeforeThere(h, a);
      PrevThere(h, h', a, q);
      IsOk(h, q);
      NextWordBefore(r, st, a, a + h.blocks[a].size, r', q);
      SizeIs(r, st, a, r', h', q);
      ThenThere(h, h', a, q);
    }
  }

  lemma OnlyIfSidesRight(r: Raw, st: State, a: nat, r': Raw, h': Heap)
    requires Ran(r, st, a, r', h')
    ensures InRegion(st.heap, a) && SidesRight(r.m, st.heap, a)
  {
    hide Result, Describes, PrevAccepted, NextAccepted, PrevFound, BlockOk, FreeWrites, OnlyFreed, Tame, High, ListOk;
    RanResult(r, st, a, r', h');
    var h, n := st.heap, a + st.heap.blocks[a].size;
    if PrevAccepted(r.m, a, h.end) {
      PrevIsFree(r, st, a, r', h');
      NotPrevOnly(r, st, a, r', h');
    } else {
      RejectedAtStart(r, st, a);
    }
    if NextAccepted(r.m, n, h.end) {
      NextIsFree(r, st, a, r', h');
    } else {
      RejectedAtEnd(r, st, a);
    }
  }

  /** Inside a region every neighbour in the window is accepted. */
  lemma RejectedAtStart(r: Raw, st: State, a: nat)
    requires Describes(r, st) && a in st.heap.blocks && !PrevAccepted(r.m, a, st.heap.end)
    ensures a <= st.heap.end - HEAP_GROW || a == st.heap.blocks[a].region
  {
    if a != st.heap.blocks[a].region {
      var q := BeforeThere(st.heap, a);
      Placed(st, a);
      assert StampedAt(r.m, st.heap.blocks, q);
    }
  }

  lemma RejectedAtEnd(r: Raw, st: State, a: nat)
    requires Describes(r, st) && a in st.heap.blocks && !NextAccepted(r.m, a + st.heap.blocks[a].size, st.heap.end)
    ensures InRegion(st.heap, a)
    ensures var n := a + st.heap.blocks[a].size; n >= st.heap.end || n == st.heap.regions[st.heap.blocks[a].region]
  {
    var n := a + st.heap.blocks[a].size;
    IsOk(st.heap, a);
    if n in st.heap.blocks { assert StampedAt(r.m, st.heap.blocks, n); }
  }

  // ---------- Right tests give a right result ----------

  lemma SidesAreTests(r: Raw, st: State, a: nat)
    requires Describes(r, st) && Used(st.heap, a) && Readable(r.m, a, st.heap.end)
    requires InRegion(st.heap, a) && SidesRight(r.m, st.heap, a)
    ensures TestsRight(r.m, st.heap, a)
    ensures !(PrevAccepted(r.m, a, st.heap.end) && !NextAccepted(r.m, a + st.heap.blocks[a].size, st.heap.end))
  {
    var h := st.heap;
    Placed(st, a);
    SizeWord(r.m, h, a);
    if PrevAccepted(r.m, a, h.end) {
      var q :| q in h.free && Adjoins(h.blocks, q, a);
      assert StampedAt(r.m, h.blocks, q);
    }
  }

  lemma FreeHeapStays(h: Heap, a: nat, prev: nat, next: bool)
    requires Tiled(h) && ListOk(h) && Used(h, a) && Right(h, a, prev, next)
    ensures Stays(h, FreeHeap(h, a, prev, next), a)
    ensures FreeHeap(h, a, prev, next).regions == h.regions && FreeHeap(h, a, prev, next).end == h.end
  {
    hide Tiled, Stays, Remove, Merge;
    if prev != 0 && next {
      BothStays(h, prev, a);
    } else if prev != 0 {
      PrevStays(h, prev, a);
    } else if next {
      NextStays(h, a);
    } else {
      PlainStays(h, a);
    }
  }

  lemma PlainStays(h: Heap, a: nat)
    ensures Stays(h, FreePlain(h, a), a)
  {
  }

  lemma NextStays(h: Heap, a: nat)
    requires ListOk(h) && Used(h, a) && Right(h, a, 0, true)
    ensures Stays(h, FreeNext(h, a), a)
  {
    RemoveIs(h.free, a + h.blocks[a].size);
    hide Remove;
  }

  lemma PrevStays(h: Heap, p: nat, a: nat)
    requires ListOk(h) && Used(h, a) && p in h.free && Adjoins(h.blocks, p, a)
    ensures Stays(h, FreePrev(h, p, a), a)
  {
    RemoveIs(h.free, p);
    hide Remove;
  }

  lemma BothStays(h: Heap, p: nat, a: nat)
    requires ListOk(h) && Used(h, a) && p != 0 && Right(h, a, p, true)
    ensures Stays(h, FreeHeap(h, a, p, true), a)
  {
    var n, h' := a + h.blocks[a].size, FreeHeap(h, a, p, true);
    RemoveIs(h.free, p);
    RemoveIs(Remove(h.free, p), n);
    hide Remove, ListOk, Merge;
    assert h'.free == Remove(Remove(h.free, p), n) + [p] && h'.blocks == Merge(Merge(h.blocks, p, a), p, n);
    hide FreeHeap, FreeBoth;
    forall f | f in h.free && f in h.blocks && !Adjoins(h.blocks, f, a) && !Adjoins(h.blocks, a, f)
      ensures f in h'.free && f in h'.blocks && h'.blocks[f] == h.blocks[f]
    {
      assert f in Remove(Remove(h.free, p), n);
      MergeTwice(h.blocks, p, a, n, f);
    }
  }

  lemma MergeTwice(blocks: map<nat, Block>, p: nat, a: nat, n: nat, f: nat)
    requires p in blocks && a in blocks && p != a && n in Merge(blocks, p, a)
    requires f in blocks && f != p && f != a && f != n
    ensures var blocks' := Merge(Merge(blocks, p, a), p, n); f in blocks' && blocks'[f] == blocks[f]
  {
  }

  lemma IfSidesRight(r: Raw, st: State, a: nat)
    requires Describes(r, st) && Used(st.heap, a) && Readable(r.m, a, st.heap.end)
    requires InRegion(st.heap, a) && SidesRight(r.m, st.heap, a)
    ensures FreesRightly(r, st, a)
  {
    hide Shape, Written, OnlyFreed, FreedHeap, FreeWrites, FreeBytes, TestsRight, SidesRight, Readable, Touches;
    hide PrevAccepted, NextAccepted, ListOk, Used, At;
    SidesAreTests(r, st, a);
    var r' := FreeDescribes(r, st, a);
    FreedIsRight(r, st, a);
    assert FreedRight(r', st, a, FreedHeap(r.m, st.heap, a));
  }

  lemma FreeHeapIsRight(st: State, a: nat, prev: nat, next: bool)
    requires Shape(st) && Used(st.heap, a) && Right(st.heap, a, prev, next) && !(prev != 0 && !next)
    ensures ListOk(st.heap) && Listed(FreeHeap(st.heap, a, prev, next))
    ensures OnlyFreed(st.heap, FreeHeap(st.heap, a, prev, next), a)
    ensures FreeBytes(FreeHeap(st.heap, a, prev, next)) == FreeBytes(st.heap) + st.heap.blocks[a].size
  {
    Basics(st);
    hide Shape, Tiled, Stays, OneLessUsed, UseKept, FreeHeap, FreeBytes, Right;
    FreeHeapStays(st.heap, a, prev, next);
    FreeIsRight(st, a, prev, next);
    Basics(st.(heap := FreeHeap(st.heap, a, prev, next)));
  }

  lemma FreedIsRight(r: Raw, st: State, a: nat)
    requires Describes(r, st) && Used(st.heap, a) && TestsRight(r.m, st.heap, a)
    requires !(PrevAccepted(r.m, a, st.heap.end) && !NextAccepted(r.m, a + st.heap.blocks[a].size, st.heap.end))
    ensures ListOk(st.heap) && OnlyFreed(st.heap, FreedHeap(r.m, st.heap, a), a) && Listed(FreedHeap(r.m, st.heap, a))
    ensures FreeBytes(FreedHeap(r.m, st.heap, a)) == FreeBytes(st.heap) + st.heap.blocks[a].size
  {
    TestsReadable(st, r.m, a);
    hide Shape, Written, OnlyFreed, FreeHeap, FreeBytes, Listed, PrevAccepted, NextAccepted, Right;
    FreeHeapIsRight(st, a, PrevFound(r.m, a, st.heap.end), NextAccepted(r.m, a + st.heap.blocks[a].size, st.heap.end));
  }

  /**
    kfree of a block in use is right exactly when on each side it is outside the window of its test, or at the
    border of its region with a word that the test rejects, or has a free block of the region, and when it
    does not merge with the previous block only.
   */
  lemma RightExactlyIf(r: Raw, st: State, a: nat)
    requires Describes(r, st) && Used(st.heap, a) && Readable(r.m, a, st.heap.end)
    requires High(st.heap) && Tame(r.m, st.heap, a)
    ensures InRegion(st.heap, a) && (FreesRightly(r, st, a) <==> SidesRight(r.m, st.heap, a))
  {
    IsOk(st.heap, a);
    hide Describes, Tame, High, Readable, SidesRight;
    if FreesRightly(r, st, a) {
      var r', h' :| FreeWrites(r, st.heap.end, a, r') && FreedRight(r', st, a, h');
      OnlyIfSidesRight(r, st, a, r', h');
    }
    if SidesRight(r.m, st.heap, a) { IfSidesRight(r, st, a); }
  }

  // ---------- The heap is high for ever ----------

  /** The first 64 KB and one page more are held, as they are from boot on. */
  ghost predicate LowHeld(fr: Frames) {
    forall f: nat :: f <= GROW_PAGES ==> f in fr.held
  }

  lemma TakenIsHigh(fr: Frames)
    requires LowHeld(fr) && TakeResult(fr) != 0
    ensures TakeResult(fr) > HEAP_GROW && LowHeld(TakeState(fr))
  {
    hide LowestFreeFrom;
    assert LowestFree(fr) !in fr.held;
  }

  lemma {:induction false} RunKeepsLow(fr: Frames, first: nat, i: nat)
    requires LowHeld(fr)
    ensures LowHeld(TakeRun(fr, first, i).0)
    decreases GROW_PAGES - i
  {
    hide LowestFreeFrom;
    if i < GROW_PAGES {
      assert 0 in fr.held;
      OneMoreHeld(fr);
      if TakeResult(fr) != 0 && TakeResult(fr) == first + i * PAGE_SIZE { RunKeepsLow(TakeState(fr), first, i + 1); }
    }
  }

  lemma {:induction false} SinglesAreHigh(st: State, i: nat)
    requires High(st.heap) && LowHeld(st.frames)
    ensures High(TakeSingles(st, i).heap) && LowHeld(TakeSingles(st, i).frames)
    decreases GROW_PAGES - i
  {
    if i < GROW_PAGES && TakeResult(st.frames) != 0 {
      TakenIsHigh(st.frames);
      SinglesAreHigh(State(AddRegion(st.heap, TakeResult(st.frames), PAGE_SIZE), TakeState(st.frames)), i + 1);
    }
  }

  lemma OpKeepsHigh(st: State, op: Op)
    requires Shape(st) && LegalOp(st, op) && High(st.heap) && LowHeld(st.frames) && KeepsLow(op)
    ensures High(HeapModel.OpState(st, op).heap) && LowHeld(HeapModel.OpState(st, op).frames)
  {
    hide Shape, TakeRun, TakeSingles, FirstFit, LowHeld, Needed;
    match op
    case Malloc(size) => GrowKeepsHigh(st);
    case Free(a, prev, next) =>
    case Traffic(fr) =>
  }

  /** Nobody gives back a frame of the first 64 KB. */
  ghost predicate KeepsLow(op: Op) { op.Traffic? ==> LowHeld(op.frames) }

  lemma GrowKeepsHigh(st: State)
    requires High(st.heap) && LowHeld(st.frames)
    ensures High(GrowState(st).heap) && LowHeld(GrowState(st).frames)
  {
    hide TakeRun, TakeSingles, LowHeld;
    var first := TakeResult(st.frames);
    if first != 0 {
      TakenIsHigh(st.frames);
      RunKeepsLow(TakeState(st.frames), first, 1);
      SinglesAreHigh(State(st.heap, TakeRun(TakeState(st.frames), first, 1).0), 0);
    }
  }

  /** Over every run that starts so, no region is longer than 64 KB and all lie above the first 64 KB. */
  lemma {:induction false} HighForEver(st: State, ops: seq<Op>)
    requires Shape(st) && High(st.heap) && LowHeld(st.frames) && LegalRun(st, ops)
    requires forall k :: 0 <= k < |ops| ==> KeepsLow(ops[k])
    ensures High(HeapModel.RunState(st, ops).heap) && LowHeld(HeapModel.RunState(st, ops).frames)
    decreases |ops|
  {
    if ops != [] {
      OpKeepsShape(st, ops[0]);
      OpKeepsHigh(st, ops[0]);
      hide Shape, High, LowHeld, HeapModel.OpState, LegalOp;
      HighForEver(HeapModel.OpState(st, ops[0]), ops[1..]);
    }
  }
}
