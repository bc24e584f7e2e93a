/**
  kmalloc and kfree (src/memory/kmalloc.cpp): the free list, the headers and the footers are rewritten in
  place in physical memory. Every method keeps the memory in step with the heap of HeapModel.
 */
module KernelHeap {

  import opened FrameAllocator
  import opened HeapModel
  import opened HeapMemory
  import opened HeapSteps
  import opened RawFree

  class KernelHeap {
    const mem: array<nat>
    const pmm: FrameBitmap
    var freeList: nat
    var heapEnd: nat
    ghost var heap: Heap

    ghost function State(): State
      reads this, pmm
    {
      HeapModel.State(heap, pmm.frames)
    }

    ghost predicate Valid()
      reads this, mem, pmm, pmm.bitmap
    {
      && pmm.Valid() && mem.Length == pmm.frames.total * PAGE_SIZE && (mem as object) != pmm.bitmap
      && Shape(State()) && Written(mem[..], heap)
      && freeList == At(heap.free, 0) && heapEnd == heap.end
    }

    /** The free list and the end pointer are null before kmalloc_init. */
    constructor (mem: array<nat>, pmm: FrameBitmap)
      requires pmm.Valid() && mem.Length == pmm.frames.total * PAGE_SIZE && 0 in pmm.frames.held
      requires (mem as object) != pmm.bitmap
      ensures Valid() && this.mem == mem && this.pmm == pmm
      ensures State() == HeapModel.State(Heap(map[], [], map[], 0), pmm.frames)
    {
      this.mem, this.pmm := mem, pmm;
      freeList, heapEnd := 0, 0;
      heap := Heap(map[], [], map[], 0);
    }

    ghost function RawNow(): Raw
      reads this, mem
    {
      Raw(mem[..], freeList)
    }

    /** list_remove, whatever the links are. */
    method UnhookWords(b: nat)
      requires UnhookFits(RawNow(), b)
      modifies this`freeList, mem
      ensures RawNow() == Unhook(old(RawNow()), b)
    {
      if mem[b + 12] != 0 { mem[mem[b + 12] + 8] := mem[b + 8]; }
      assert mem[..] == Bypass(old(mem[..]), b);
      if mem[b + 8] != 0 { mem[mem[b + 8] + 12] := mem[b + 12]; }
      if freeList == b { freeList := mem[b + 8]; }
    }

    /** list_remove of the i-th free block. */
    method ListRemove(a: nat, ghost i: nat)
      requires Valid() && i < |heap.free| && a == heap.free[i]
      modifies this`freeList, this`heap, mem
      ensures Valid() && heap == old(heap).(free := Without(old(heap).free, i))
      ensures LinksOnly(old(mem[..]), mem[..], old(heap).free)
    {
      hide Shape, Written, Unhook, UnhookFits, LinksOnly, Remove;
      Basics(State());
      RemoveIs(heap.free, a);
      UnhookIs(RawNow(), State(), a);
      UnhookWords(a);
      heap := heap.(free := Without(heap.free, i));
    }

    /** list_append, whatever the links are, if its walk ends. */
    method HookWords(x: nat, ghost r': Raw)
      requires Hooked(RawNow(), x, r')
      modifies this`freeList, mem
      ensures Hooked(old(RawNow()), x, RawNow())
    {
      mem[x + 8] := 0;
      mem[x + 12] := 0;
      assert mem[..] == NoLinks(old(mem[..]), x);
      if freeList == 0 {
        freeList := x;
        return;
      }
      ghost var chain :| Walk(mem[..], freeList, chain);
      var last := freeList;
      ghost var i := 0;
      ghost var m1 := mem[..];
      assert WalkAt(m1, chain, 0);
      while mem[last + 8] != 0
        invariant 0 <= i < |chain| && last == chain[i] && last + 16 <= mem.Length && mem[..] == m1
        decreases |chain| - i
      {
        assert WalkAt(m1, chain, i);
        i := i + 1;
        last := mem[last + 8];
        assert WalkAt(m1, chain, i);
      }
      WalkEnds(m1, freeList, chain, i);
      mem[last + 8] := x;
      mem[x + 12] := last;
      assert mem[..] == LinkLast(m1, chain[|chain| - 1], x);
    }

    /** list_append, for a block in use: it becomes the last free block. */
    method ListAppend(a: nat)
      requires Valid() && Used(heap, a)
      modifies this`freeList, this`heap, mem
      ensures Valid() && heap == FreePlain(old(heap), a)
      ensures LinksOnly(old(mem[..]), mem[..], heap.free)
    {
      hide Shape, Written, LinksOnly, Hooked;
      ghost var r' := HookedIs(RawNow(), State(), a);
      HookWords(a, r');
      heap := FreePlain(heap, a);
    }

    /** The size at both ends of a block, and the magic number. */
    method StampWords(a: nat, size: nat)
      requires size >= MIN_BLOCK && a + size <= mem.Length
      modifies mem
      ensures mem[a] == size && mem[a + 4] == HEAP_MAGIC && mem[a + size - 4] == size
      ensures forall x :: 0 <= x < mem.Length && x != a && x != a + 4 && x != a + size - 4 ==> mem[x] == old(mem[x])
    {
      mem[a] := size;
      mem[a + 4] := HEAP_MAGIC;
      mem[a + size - 4] := size;
    }

    method SplitWords(a: nat, needed: nat)
      requires a + 16 <= mem.Length
      requires 32 <= needed && needed + 32 <= mem[a] && a + mem[a] <= mem.Length
      requires mem[a + 8] + 16 <= mem.Length && mem[a + 12] + 16 <= mem.Length
      requires freeList == a <==> mem[a + 12] == 0
      requires mem[a + 8] != 0 ==> mem[a + 8] + 16 <= a || a + mem[a] <= mem[a + 8]
      requires mem[a + 12] != 0 ==> mem[a + 12] + 16 <= a || a + mem[a] <= mem[a + 12]
      modifies this`freeList, mem
      ensures SplitWrites(old(mem[..]), mem[..], a, old(mem[a]), needed, old(mem[a + 8]), old(mem[a + 12]))
      ensures freeList == if old(freeList) == a then a + needed else old(freeList)
    {
      var leftover, split, next, prev := mem[a] - needed, a + needed, mem[a + 8], mem[a + 12];
      StampWords(split, leftover);
      mem[split + 8] := next;
      mem[split + 12] := prev;
      if next != 0 { mem[next + 12] := split; }
      if prev != 0 { mem[prev + 8] := split; } else { freeList := split; }
      mem[a] := needed;
      mem[a + needed - 4] := needed;
    }

    /** The front part of the i-th free block is put into use, the rest takes its place in the list. */
    method SplitBlock(a: nat, needed: nat, ghost i: nat)
      requires Valid() && i < |heap.free| && a == heap.free[i] && Splits(heap, i, needed)
      modifies this`freeList, this`heap, mem
      ensures Valid() && heap == Split(old(heap), i, needed)
      ensures KeepsUse(old(mem[..]), mem[..], old(heap))
    {
      hide Shape, Written, SplitWrites, KeepsUse, Tiled;
      SplitReads(State(), mem[..], i);
      SplitWords(a, needed);
      SplitIsWritten(State(), old(mem[..]), mem[..], i, needed);
      heap := Split(heap, i, needed);
    }

    /** memset of the payload of a block in use. */
    method ZeroPayload(a: nat)
      requires Valid() && Used(heap, a)
      modifies mem
      ensures Valid() && PayloadOnly(old(mem[..]), mem[..], heap.blocks, a)
      ensures Zeroed(mem[..], a + HEADER_SIZE, a + heap.blocks[a].size - 4)
    {
      hide Shape, Written, Zeroed, OnlyIn, PayloadOnly;
      Placed(State(), a);
      SizeWord(mem[..], heap, a);
      ZeroWords(a + HEADER_SIZE, a + mem[a] - 4);
      PayloadChanged(State(), old(mem[..]), mem[..], a);
    }

    method ZeroWords(from: nat, to: nat)
      requires from <= to <= mem.Length && from % 4 == 0 && to % 4 == 0
      modifies mem
      ensures Zeroed(mem[..], from, to) && OnlyIn(old(mem[..]), mem[..], from, to)
    {
      var x := from;
      while x < to
        invariant from <= x <= to && x % 4 == 0 && Zeroed(mem[..], from, x)
        invariant forall y :: 0 <= y < mem.Length && !(from <= y < to) ==> mem[y] == old(mem[y])
      {
        mem[x] := 0;
        x := x + 4;
      }
    }

    /** First fit: the first free block of at least needed bytes, or the null pointer. */
    method FindFit(needed: nat) returns (a: nat, ghost i: nat)
      requires Valid()
      ensures a == At(heap.free, FirstFit(heap, needed, 0)) && i == FirstFit(heap, needed, 0)
    {
      a, i := freeList, 0;
      AllPlaced(State());
      while a != 0
        invariant 0 <= i <= |heap.free| && a == At(heap.free, i)
        invariant FirstFit(heap, needed, 0) == FirstFit(heap, needed, i)
        decreases |heap.free| - i
      {
        SizeWord(mem[..], heap, a);
        if mem[a] >= needed { return; }
        assert LinkedAt(mem[..], heap.free, i);
        a := mem[a + 8];
        i := i + 1;
      }
    }

    /** Takes the first fit out of the list, or its front part, and clears its payload. */
    method Serve(needed: nat) returns (ptr: nat)
      requires Valid() && needed % 4 == 0 && needed >= MIN_BLOCK
      modifies this`freeList, this`heap, mem
      ensures Valid()
      ensures State() == ServeState(old(State()), needed) && ptr == ServeResult(old(State()), needed)
      ensures KeepsUse(old(mem[..]), mem[..], old(heap))
      ensures ptr != 0 ==> Cleared(mem[..], heap, ptr)
    {
      hide Shape, Written, FirstFit, KeepsUse, PayloadOnly;
      Basics(State());
      var a; ghost var i;
      a, i := FindFit(needed);
      if a == 0 {
        NoFit(State(), i);
        UseSame(mem[..], heap);
        return 0;
      }
      assert i < |heap.free|;
      TakeBlock(a, needed, i);
      Carved(old(State()), i, needed);
      label Taken:
      ZeroPayload(a);
      ptr := a + HEADER_SIZE;
      PayloadKeepsUse(old(State()), old(mem[..]), old@Taken(mem[..]), mem[..], i, needed);
    }

    method TakeBlock(a: nat, needed: nat, ghost i: nat)
      requires Valid() && needed % 4 == 0 && needed >= MIN_BLOCK
      requires i < |heap.free| && a == heap.free[i] && heap.blocks[a].size >= needed
      modifies this`freeList, this`heap, mem
      ensures Valid() && heap == Carve(old(heap), i, needed)
      ensures KeepsUse(old(mem[..]), mem[..], old(heap))
    {
      hide Shape, Written, KeepsUse, LinksOnly;
      Basics(State());
      SizeWord(mem[..], heap, a);
      if mem[a] - needed >= MIN_BLOCK {
        SplitBlock(a, needed, i);
      } else {
        ListRemove(a, i);
        LinksKeepUse(old(State()), old(mem[..]), mem[..]);
      }
    }

    // ---------- Growth ----------

    /** A new region, stamped as one block and put at the end of the list. */
    method AddBlock(start: nat, size: nat)
      requires Valid() && size >= MIN_BLOCK && size % 4 == 0
      requires RegionOk(start, start + size, pmm.frames) && Outside(heap, start, size)
      modifies this`freeList, this`heapEnd, this`heap, mem
      ensures Valid() && heap == AddRegion(old(heap), start, size)
      ensures KeepsUse(old(mem[..]), mem[..], old(heap))
    {
      hide Shape, Written, KeepsUse, LinksOnly, Outside;
      StampWords(start, size);
      heapEnd := start + size;
      RegionStamped(State(), old(mem[..]), mem[..], start, size);
      heap := WithRegion(heap, start, size);
      label Stamped:
      ListAppend(start);
      AppendKeepsUse(old(State()), old(mem[..]), old@Stamped(mem[..]), mem[..], start, size);
    }

    /** Takes the pages behind first, as long as they follow it. */
    method TakeContiguous(first: nat) returns (contiguous: bool)
      requires pmm.Valid()
      modifies pmm`usedPages, pmm`frames, pmm.bitmap
      ensures pmm.Valid() && (pmm.frames, contiguous) == TakeRun(old(pmm.frames), first, 1)
    {
      var i := 1;
      while i < GROW_PAGES
        invariant 1 <= i <= GROW_PAGES && pmm.Valid()
        invariant TakeRun(old(pmm.frames), first, 1) == TakeRun(pmm.frames, first, i)
      {
        var page := pmm.AllocPage();
        if page == 0 { return false; }
        if page != first + i * PAGE_SIZE {
          pmm.FreePage(page);
          return false;
        }
        i := i + 1;
      }
      contiguous := true;
    }

    /** One page, one region. */
    method AddPage() returns (done: bool)
      requires Valid()
      modifies this, mem, pmm`usedPages, pmm`frames, pmm.bitmap
      ensures Valid() && done == (TakeResult(old(pmm.frames)) == 0)
      ensures State() == if done then old(State()) else
                HeapModel.State(AddRegion(old(heap), TakeResult(old(pmm.frames)), PAGE_SIZE),
                                TakeState(old(pmm.frames)))
      ensures KeepsUse(old(mem[..]), mem[..], old(heap)) && SameUse(old(heap), heap)
    {
      hide Shape, Written, KeepsUse, Outside, RegionOk, Represents, SameUse;
      assert 0 in pmm.frames.held && Sound(pmm.frames) by { FramesOk(State()); }
      var page := pmm.AllocPage();
      if page == 0 {
        UseSame(mem[..], heap);
        return true;
      }
      PageJoins(old(State()));
      AddBlock(page, PAGE_SIZE);
      done := false;
    }

    method AddPages()
      requires Valid()
      modifies this, mem, pmm`usedPages, pmm`frames, pmm.bitmap
      ensures Valid() && State() == TakeSingles(old(State()), 0)
      ensures KeepsUse(old(mem[..]), mem[..], old(heap)) && SameUse(old(heap), heap)
    {
      hide Shape, Written, KeepsUse, SameUse, Represents, TakeState, TakeResult, AddRegion, At;
      var i := 0;
      UseSame(mem[..], heap);
      while i < GROW_PAGES
        invariant 0 <= i <= GROW_PAGES && Valid()
        invariant TakeSingles(old(State()), 0) == TakeSingles(State(), i)
        invariant KeepsUse(old(mem[..]), mem[..], old(heap)) && SameUse(old(heap), heap)
      {
        ghost var m, h := mem[..], heap;
        var done := AddPage();
        UseTrans(old(mem[..]), m, mem[..], old(heap), h, heap);
        if done { break; }
        i := i + 1;
      }
    }

    /** heap_grow: one region of sixteen pages if they follow each other, otherwise regions of one page. */
    method Grow()
      requires Valid()
      modifies this, mem, pmm`usedPages, pmm`frames, pmm.bitmap
      ensures Valid() && State() == GrowState(old(State()))
      ensures KeepsUse(old(mem[..]), mem[..], old(heap)) && SameUse(old(heap), heap)
    {
      hide Shape, Written, KeepsUse, Outside, RegionOk, TakeRun, TakeSingles, SameUse;
      UseSame(mem[..], heap);
      assert 0 in pmm.frames.held && Sound(pmm.frames) by { FramesOk(State()); }
      var first := pmm.AllocPage();
      if first == 0 { return; }
      var contiguous := TakeContiguous(first);
      RunJoins(old(State()));
      if contiguous {
        AddBlock(first, HEAP_GROW);
      } else {
        AddPages();
      }
    }

    /** kmalloc: the payload it returns is cleared, and no block in use has changed. */
    method Malloc(size: nat) returns (ptr: nat)
      requires Valid() && size < WORD
      modifies this, mem, pmm`usedPages, pmm`frames, pmm.bitmap
      ensures Valid()
      ensures State() == MallocState(old(State()), size) && ptr == MallocResult(old(State()), size)
      ensures KeepsUse(old(mem[..]), mem[..], old(heap))
      ensures ptr != 0 ==> Cleared(mem[..], heap, ptr)
    {
      hide Shape, Written, KeepsUse, FirstFit, Needed, GrowState, SameUse, Cleared, ServeResult;
      UseSame(mem[..], heap);
      if size == 0 { return 0; }
      var up := (size + 7) % WORD;
      var needed := (up - up % 8 + OVERHEAD) % WORD;
      if needed < MIN_BLOCK { needed := MIN_BLOCK; }
      assert needed == Needed(size) by { NeededIs(size); }
      NeededIsEnough(size);
      Basics(State());
      var a; ghost var i;
      a, i := FindFit(needed);
      NoFitIff(State(), i, needed);
      if a == 0 { Grow(); }
      assert State() == Ready(old(State()), needed);
      ghost var m, h := mem[..], heap;
      ptr := Serve(needed);
      UseTrans2(old(mem[..]), m, mem[..], old(heap), h);
    }

    // ---------- kfree ----------

    /** The size, and the footer where it puts it. */
    method SizeWords(x: nat, size: nat)
      requires ResizeFits(mem[..], x, size)
      modifies mem
      ensures mem[..] == Resize(old(mem[..]), x, size)
    {
      mem[x] := size;
      mem[x + size - 4] := size;
    }

    /** Merge with both blocks that the tests found, whatever they are. */
    method MergeBoth(p: nat, a: nat, n: nat, ghost r': Raw)
      requires BothWrites(RawNow(), p, a, n, r')
      requires a < mem.Length && n < mem.Length
      modifies this`freeList, mem
      ensures BothWrites(old(RawNow()), p, a, n, RawNow())
    {
      hide Unhook, Resize, Hooked;
      UnhookWords(p);
      UnhookWords(n);
      SizeWords(p, mem[p] + (mem[a] + mem[n]));
      HookWords(p, r');
    }

    /** Merge with the previous block only. */
    method MergePrev(p: nat, a: nat, ghost r': Raw)
      requires PrevWrites(RawNow(), p, a, r')
      requires a < mem.Length
      modifies this`freeList, mem
      ensures PrevWrites(old(RawNow()), p, a, RawNow())
    {
      hide Unhook, Resize;
      UnhookWords(p);
      SizeWords(p, mem[p] + mem[a]);
    }

    /** Merge with the next block only. */
    method MergeNext(a: nat, n: nat, ghost r': Raw)
      requires NextWrites(RawNow(), a, n, r')
      requires n < mem.Length
      modifies this`freeList, mem
      ensures NextWrites(old(RawNow()), a, n, RawNow())
    {
      hide Unhook, Resize, Hooked;
      UnhookWords(n);
      SizeWords(a, mem[a] + mem[n]);
      HookWords(a, r');
    }

    /** No merge: the magic number and the footer are written once more. */
    method PutBack(a: nat, ghost r': Raw)
      requires PlainWrites(RawNow(), a, r')
      requires a + 16 <= mem.Length
      modifies this`freeList, mem
      ensures PlainWrites(old(RawNow()), a, RawNow())
    {
      hide Hooked;
      mem[a + 4] := HEAP_MAGIC;
      mem[a + mem[a] - 4] := mem[a];
      assert mem[..] == Set(Set(old(mem[..]), a + 4, HEAP_MAGIC), a + old(mem[a]) - 4, old(mem[a]));
      HookWords(a, r');
    }

    /** The test for a free block before a. */
    method HasFreePrev(a: nat) returns (found: bool, p: nat)
      requires Readable(mem[..], a, heapEnd)
      ensures found == PrevAccepted(mem[..], a, heapEnd) && p == PrevFound(mem[..], a, heapEnd)
    {
      if a > heapEnd - HEAP_GROW {
        p := a - mem[a - 4];
        if mem[p + 4] == HEAP_MAGIC { return true, p; }
      }
      return false, 0;
    }

    /** The test for a free block at n. */
    method HasFreeNext(n: nat) returns (found: bool)
      requires n < heapEnd ==> n + 4 < mem.Length
      ensures found == NextAccepted(mem[..], n, heapEnd)
    {
      found := n < heapEnd && mem[n + 4] == HEAP_MAGIC;
    }

    /** kfree: a null pointer and a header without the magic number are ignored. */
    method Free(ptr: nat)
      requires Valid() && (ptr != 0 ==> ptr >= HEADER_SIZE && Header(mem[..], ptr - HEADER_SIZE))
      requires ptr != 0 && mem[ptr - HEADER_SIZE + 4] == HEAP_MAGIC ==>
                 Ends(RawNow(), heapEnd, ptr - HEADER_SIZE)
      modifies this`freeList, this`heap, mem
      ensures ptr == 0 || old(mem[ptr - HEADER_SIZE + 4]) != HEAP_MAGIC ==>
                Valid() && RawNow() == old(RawNow()) && heap == old(heap)
      ensures ptr != 0 && old(mem[ptr - HEADER_SIZE + 4]) == HEAP_MAGIC ==>
                var a := ptr - HEADER_SIZE;
                && FreeWrites(old(RawNow()), heapEnd, a, RawNow())
                && (Used(old(heap), a) && TestsRight(old(mem[..]), old(heap), a) ==>
                      Valid() && FreeDone(old(mem[..]), old(heap), a, mem[..], heap))
    {
      hide Shape, Written, FreeWrites, TestsRight, FreeDone, Ends, Used;
      if ptr != 0 && mem[ptr - HEADER_SIZE + 4] == HEAP_MAGIC {
        FreeBlock(ptr - HEADER_SIZE);
      }
    }

    /**
      kfree of what has a header: it writes what FreeWrites says, right or wrong, provided that it stays in memory
      and its walk of the list ends. If the block is in use, and every neighbour that the tests accept is a free
      block of the region, the heap becomes the one with the block freed.
     */
    method FreeBlock(a: nat)
      requires Valid() && Ends(RawNow(), heapEnd, a)
      modifies this`freeList, this`heap, mem
      ensures FreeWrites(old(RawNow()), heapEnd, a, RawNow())
      ensures Used(old(heap), a) && TestsRight(old(mem[..]), old(heap), a) ==>
                Valid() && FreeDone(old(mem[..]), old(heap), a, mem[..], heap)
    {
      hide Shape, Written, Touches, FreeWrites, TestsRight, FreedHeap;
      ghost var r' :| FreeWrites(RawNow(), heapEnd, a, r');
      ghost var r, st := RawNow(), State();
      FreeRaw(a, r');
      if Used(st.heap, a) && TestsRight(r.m, st.heap, a) {
        r' := FreeDescribes(r, st, a);
        heap := FreedHeap(r.m, heap, a);
      }
    }

    /** The tests and the merges of kfree. */
    method FreeRaw(a: nat, ghost r': Raw)
      requires FreeWrites(RawNow(), heapEnd, a, r')
      modifies this`freeList, mem
      ensures FreeWrites(old(RawNow()), heapEnd, a, RawNow())
    {
      hide BothWrites, PrevWrites, NextWrites, PlainWrites;
      var mergePrev, p := HasFreePrev(a);
      var n := a + mem[a];
      var mergeNext := HasFreeNext(n);
      if mergePrev && mergeNext {
        MergeBoth(p, a, n, r');
      } else if mergePrev {
        MergePrev(p, a, r');
      } else if mergeNext {
        MergeNext(a, n, r');
      } else {
        PutBack(a, r');
      }
    }

    /** kmalloc_init: panics without a page; otherwise the heap is one page, free. */
    method Init() returns (panicked: bool)
      requires Valid() && heap == Heap(map[], [], map[], 0)
      modifies this, mem, pmm`usedPages, pmm`frames, pmm.bitmap
      ensures Valid() && panicked == (TakeResult(old(pmm.frames)) == 0)
      ensures !panicked ==>
                State() == HeapModel.State(AddRegion(old(heap), TakeResult(old(pmm.frames)), PAGE_SIZE),
                                           TakeState(old(pmm.frames)))
    {
      panicked := AddPage();
    }

    /** The owner of a payload writes a word of it. */
    method Store(ptr: nat, offset: nat, value: nat)
      requires Valid() && ptr >= HEADER_SIZE && Used(heap, ptr - HEADER_SIZE)
      requires offset < heap.blocks[ptr - HEADER_SIZE].size - OVERHEAD
      modifies mem
      ensures Valid() && ptr + offset < mem.Length
      ensures mem[..] == old(mem[..])[ptr + offset := value]
    {
      hide Shape, Written;
      SizeWord(mem[..], heap, ptr - HEADER_SIZE);
      mem[ptr + offset] := value;
      PayloadChanged(State(), old(mem[..]), mem[..], ptr - HEADER_SIZE);
    }
  }
}
