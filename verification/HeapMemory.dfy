/**
  The heap of HeapModel written into memory: headers, footers and the links of the free list
  (src/memory/kmalloc.cpp:10-94).

  A memory is a sequence indexed by byte address; only the entries at multiples of four are used, each for
  the 32-bit word there. A header is size, magic, next, prev; the last word of a block repeats its size.
 */
module HeapMemory {

  import opened HeapModel

  const HEAP_MAGIC: nat := 0xDEAD

  type Memory = seq<nat>

  ghost predicate StampedAt(m: Memory, blocks: map<nat, Block>, a: nat)
    requires a in blocks
  {
    var n := blocks[a].size;
    && n >= MIN_BLOCK && a + n <= |m|
    && m[a] == n && m[a + 4] == HEAP_MAGIC && m[a + n - 4] == n
  }

  /** Every block, free or in use, carries its size at both ends, and the magic number. */
  ghost predicate Stamped(m: Memory, blocks: map<nat, Block>) {
    forall a {:trigger StampedAt(m, blocks, a)} :: a in blocks ==> StampedAt(m, blocks, a)
  }

  /** The i-th address of a list, or the null pointer beyond its ends. */
  function At(free: seq<nat>, i: int): nat {
    if 0 <= i < |free| then free[i] else 0
  }

  ghost predicate LinkedAt(m: Memory, free: seq<nat>, i: int)
    requires 0 <= i < |free|
  {
    free[i] + 16 <= |m| && m[free[i] + 8] == At(free, i + 1) && m[free[i] + 12] == At(free, i - 1)
  }

  /** The links run through the free list in both directions. */
  ghost predicate Linked(m: Memory, free: seq<nat>) {
    forall i {:trigger LinkedAt(m, free, i)} :: 0 <= i < |free| ==> LinkedAt(m, free, i)
  }

  ghost predicate Written(m: Memory, h: Heap) {
    Stamped(m, h.blocks) && Linked(m, h.free)
  }

  /** Only link words of blocks in the list differ. */
  ghost predicate LinksOnly(m: Memory, m': Memory, free: seq<nat>) {
    && |m'| == |m|
    && forall x :: 0 <= x < |m| && m'[x] != m[x] ==>
         exists i :: 0 <= i < |free| && (x == free[i] + 8 || x == free[i] + 12)
  }

  /** Link words are not stamps. */
  lemma LinksKeepStamps(m: Memory, m': Memory, h: Heap, free: seq<nat>)
    requires Apart(h.blocks) && Stamped(m, h.blocks) && LinksOnly(m, m', free)
    requires forall i :: 0 <= i < |free| ==> free[i] in h.blocks && StampedAt(m, h.blocks, free[i])
    ensures Stamped(m', h.blocks)
  {
    forall a | a in h.blocks ensures StampedAt(m', h.blocks, a) {
      assert StampedAt(m, h.blocks, a);
      forall i | 0 <= i < |free| ensures free[i] == a || free[i] + 32 <= a || a + h.blocks[a].size <= free[i] {
        Separate(h.blocks, a, free[i]);
      }
    }
  }

  /** Takes the i-th block out of the list: its neighbours are linked to each other. */
  function Unlink(m: Memory, free: seq<nat>, i: nat): Memory
    requires i < |free| && forall k :: 0 <= k < |free| ==> free[k] + 16 <= |m|
  {
    var m1 := if i > 0 then m[free[i - 1] + 8 := At(free, i + 1)] else m;
    if i + 1 < |free| then m1[free[i + 1] + 12 := At(free, i - 1)] else m1
  }

  ghost predicate Spaced(free: seq<nat>) {
    forall i, j :: 0 <= i < j < |free| ==> free[i] + 16 <= free[j] || free[j] + 16 <= free[i]
  }

  lemma UnlinkIsLinked(m: Memory, free: seq<nat>, i: nat)
    requires Linked(m, free) && Spaced(free) && i < |free| && forall k :: 0 <= k < |free| ==> free[k] + 16 <= |m|
    ensures Linked(Unlink(m, free, i), Without(free, i))
    ensures LinksOnly(m, Unlink(m, free, i), free)
  {
    var m', free' := Unlink(m, free, i), Without(free, i);
    forall k | 0 <= k < |free'| ensures LinkedAt(m', free', k) { UnlinkedAt(m, free, i, k); }
  }

  lemma UnlinkedAt(m: Memory, free: seq<nat>, i: nat, k: nat)
    requires Linked(m, free) && Spaced(free) && i < |free| && forall k :: 0 <= k < |free| ==> free[k] + 16 <= |m|
    requires k < |free| - 1
    ensures LinkedAt(Unlink(m, free, i), Without(free, i), k)
  {
    var j := if k < i then k else k + 1;
    assert LinkedAt(m, free, j);
    assert Without(free, i)[k] == free[j];
    assert At(Without(free, i), k + 1) == if k + 1 == i then At(free, i + 1) else At(free, j + 1);
    assert At(Without(free, i), k - 1) == if k == i then At(free, i - 1) else At(free, j - 1);
    hide Without, At, Linked;
  }

  /** Links a block behind the last one of the list. */
  function Append(m: Memory, free: seq<nat>, a: nat): Memory
    requires a + 16 <= |m| && forall k :: 0 <= k < |free| ==> free[k] + 16 <= |m|
  {
    var m1 := m[a + 8 := 0][a + 12 := 0];
    if free == [] then m1 else m1[free[|free| - 1] + 8 := a][a + 12 := free[|free| - 1]]
  }

  lemma AppendIsLinked(m: Memory, free: seq<nat>, a: nat)
    requires Linked(m, free) && Spaced(free) && a + 16 <= |m|
    requires forall k :: 0 <= k < |free| ==> free[k] + 16 <= |m| && (free[k] + 16 <= a || a + 16 <= free[k])
    ensures Linked(Append(m, free, a), free + [a])
    ensures LinksOnly(m, Append(m, free, a), free + [a])
  {
    var m', free' := Append(m, free, a), free + [a];
    assert free'[|free|] == a && forall k :: 0 <= k < |free| ==> free'[k] == free[k];
    forall k | 0 <= k < |free'| ensures LinkedAt(m', free', k) {
      if k < |free| { assert LinkedAt(m, free, k); }
    }
  }

  lemma ListIsSpaced(h: Heap)
    requires Apart(h.blocks) && ListOk(h) && forall a :: a in h.blocks ==> h.blocks[a].size >= MIN_BLOCK
    ensures Spaced(h.free)
  {
    forall i, j | 0 <= i < j < |h.free| ensures h.free[i] + 16 <= h.free[j] || h.free[j] + 16 <= h.free[i] {
      Separate(h.blocks, h.free[i], h.free[j]);
    }
  }

  // ---------- Changes inside one block ----------

  ghost predicate Inside(blocks: map<nat, Block>, a: nat, x: int)
    requires a in blocks
  {
    a <= x < a + blocks[a].size
  }

  /** Outside the payload of a, nothing differs. */
  ghost predicate PayloadOnly(m: Memory, m': Memory, blocks: map<nat, Block>, a: nat)
    requires a in blocks
  {
    |m'| == |m| && forall x :: 0 <= x < |m| && m'[x] != m[x] ==> a + HEADER_SIZE <= x < a + blocks[a].size - 4
  }

  /** Whatever is written into the payload of a block in use, the heap stays written. */
  lemma PayloadKeeps(m: Memory, m': Memory, h: Heap, a: nat)
    requires Apart(h.blocks) && Listed(h) && Written(m, h) && Used(h, a) && PayloadOnly(m, m', h.blocks, a)
    ensures Written(m', h)
  {
    forall b | b in h.blocks ensures StampedAt(m', h.blocks, b) {
      assert StampedAt(m, h.blocks, b);
      Separate(h.blocks, a, b);
    }
    forall i | 0 <= i < |h.free| ensures LinkedAt(m', h.free, i) {
      assert LinkedAt(m, h.free, i) && StampedAt(m, h.blocks, h.free[i]);
      Separate(h.blocks, a, h.free[i]);
    }
  }

  /** The words that a split writes. */
  ghost predicate SplitWrites(m: Memory, m': Memory, a: nat, size: nat, needed: nat, next: nat, prev: nat)
    requires 32 <= needed <= size - 32 && a + size <= |m| && next + 16 <= |m| && prev + 16 <= |m|
  {
    var c := a + needed;
    && |m'| == |m|
    && m'[c] == size - needed && m'[c + 4] == HEAP_MAGIC && m'[a + size - 4] == size - needed
    && m'[c + 8] == next && m'[c + 12] == prev
    && (next != 0 ==> m'[next + 12] == c) && (prev != 0 ==> m'[prev + 8] == c)
    && m'[a] == needed && m'[c - 4] == needed
    && forall x :: 0 <= x < |m| && m'[x] != m[x] ==>
         || (x == a || (a + 16 <= x < a + size)) || (next != 0 && x == next + 12) || (prev != 0 && x == prev + 8)
  }

  ghost predicate SplitDone(m: Memory, m': Memory, h: Heap, i: nat, needed: nat) {
    && Splits(h, i, needed) && Written(m, h) && (forall k :: 0 <= k < |h.free| ==> h.free[k] != 0)
    && h.blocks[h.free[i]].size + h.free[i] <= |m| && At(h.free, i + 1) + 16 <= |m| && At(h.free, i - 1) + 16 <= |m|
    && SplitWrites(m, m', h.free[i], h.blocks[h.free[i]].size, needed, At(h.free, i + 1), At(h.free, i - 1))
  }

  /** The neighbours in the list of the block that is split lie apart from every block but themselves. */
  lemma ListNeighboursApart(m: Memory, h: Heap, i: nat, a: nat)
    requires Tiled(h) && ListOk(h) && Stamped(m, h.blocks) && i < |h.free| && a in h.blocks
    ensures a == h.free[i] || a + h.blocks[a].size <= h.free[i] || h.free[i] + h.blocks[h.free[i]].size <= a
    ensures i + 1 < |h.free| ==> a == h.free[i + 1] || a + h.blocks[a].size <= h.free[i + 1] || h.free[i + 1] + 32 <= a
    ensures i > 0 ==> a == h.free[i - 1] || a + h.blocks[a].size <= h.free[i - 1] || h.free[i - 1] + 32 <= a
  {
    Separate(h.blocks, a, h.free[i]);
    if i + 1 < |h.free| { Separate(h.blocks, a, h.free[i + 1]); assert StampedAt(m, h.blocks, h.free[i + 1]); }
    if i > 0 { Separate(h.blocks, a, h.free[i - 1]); assert StampedAt(m, h.blocks, h.free[i - 1]); }
  }

  lemma SplitStampedAt(m: Memory, m': Memory, h: Heap, i: nat, needed: nat, b: nat)
    requires SplitDone(m, m', h, i, needed) && b in Split(h, i, needed).blocks
    ensures StampedAt(m', Split(h, i, needed).blocks, b)
  {
    var was := if b == h.free[i] + needed then h.free[i] else b;
    assert StampedAt(m, h.blocks, was);
    ListNeighboursApart(m, h, i, was);
    hide Tiled, Linked, Stamped;
  }

  lemma SplitLinkedAt(m: Memory, m': Memory, h: Heap, i: nat, needed: nat, k: nat)
    requires SplitDone(m, m', h, i, needed) && k < |h.free|
    ensures LinkedAt(m', Split(h, i, needed).free, k)
  {
    assert LinkedAt(m, h.free, k) && StampedAt(m, h.blocks, h.free[k]);
    ListNeighboursApart(m, h, i, h.free[k]);
    hide Tiled, Linked, Stamped;
  }

  lemma SplitIsWell(m: Memory, m': Memory, h: Heap, i: nat, needed: nat)
    requires SplitDone(m, m', h, i, needed)
    ensures Written(m', Split(h, i, needed))
  {
    var h' := Split(h, i, needed);
    forall b | b in h'.blocks ensures StampedAt(m', h'.blocks, b) { SplitStampedAt(m, m', h, i, needed, b); }
    forall k | 0 <= k < |h'.free| ensures LinkedAt(m', h'.free, k) { SplitLinkedAt(m, m', h, i, needed, k); }
    hide SplitDone, StampedAt, LinkedAt;
  }

  // ---------- New and merged blocks ----------

  /** Stamping one block, new or grown over its removed neighbours, keeps the others. */
  lemma StampKeeps(m: Memory, m': Memory, blocks: map<nat, Block>, blocks': map<nat, Block>, free: seq<nat>, x: nat)
    requires Stamped(m, blocks) && Linked(m, free) && Apart(blocks') && |m'| == |m| && x in blocks'
    requires forall b :: b in blocks' && b != x ==> b in blocks && blocks'[b] == blocks[b]
    requires forall i :: 0 <= i < |free| ==> free[i] in blocks' && free[i] != x
    requires StampedAt(m', blocks', x)
    requires forall y :: 0 <= y < |m| && m'[y] != m[y] ==> Inside(blocks', x, y)
    ensures Stamped(m', blocks') && Linked(m', free)
  {
    forall b | b in blocks' ensures StampedAt(m', blocks', b) {
      if b != x {
        assert StampedAt(m, blocks, b);
        Separate(blocks', b, x);
      }
    }
    forall i | 0 <= i < |free| ensures LinkedAt(m', free, i) {
      assert LinkedAt(m, free, i) && StampedAt(m, blocks, free[i]);
      Separate(blocks', free[i], x);
    }
  }

  // ---------- What kfree tests ----------

  /** The word before the block leads to a header with the magic number. */
  ghost predicate PrevAccepted(m: Memory, a: nat, end: nat) {
    && a > end - HEAP_GROW && a >= 4 && a <= |m|
    && m[a - 4] <= a && a - m[a - 4] + 4 < |m| && m[a - m[a - 4] + 4] == HEAP_MAGIC
  }

  ghost predicate NextAccepted(m: Memory, n: nat, end: nat) {
    n < end && n + 4 < |m| && m[n + 4] == HEAP_MAGIC
  }

  /** The block that PrevAccepted found, or 0. */
  ghost function PrevFound(m: Memory, a: nat, end: nat): nat {
    if PrevAccepted(m, a, end) then a - m[a - 4] else 0
  }

  /**
    kmalloc never clears the magic number, so inside a region the tests accept every neighbour in their window,
    in use or free. There they are right exactly when the neighbour is free.
   */
  lemma TestsAcceptEveryNeighbour(m: Memory, h: Heap, x: nat, y: nat)
    requires Tiled(h) && Written(m, h) && Adjoins(h.blocks, x, y)
    ensures y > h.end - HEAP_GROW ==> PrevFound(m, y, h.end) == x && PrevAccepted(m, y, h.end)
    ensures y < h.end ==> NextAccepted(m, y, h.end)
    ensures y < h.end ==> (Right(h, x, 0, NextAccepted(m, y, h.end)) <==> y in h.free)
    ensures y > h.end - HEAP_GROW && x != 0 ==> (Right(h, y, PrevFound(m, y, h.end), false) <==> x in h.free)
  {
    assert StampedAt(m, h.blocks, x) && StampedAt(m, h.blocks, y);
  }
}
