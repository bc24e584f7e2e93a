/**
  The physical frame allocator of src/memory/pmm_bitmap.cpp.

  The class `FrameBitmap` keeps the source's byte array, total_pages and used_pages. Its methods are
  specified by functions on `Frames`, which is just a number of frames and the set of those handed out.
 */
module FrameAllocator {

  const PAGE_SIZE: nat := 4096
  const MAX_RAM_MB: nat := 1024
  const MAX_PAGES: nat := 262144       // MAX_RAM_MB * 1024 * 1024 / PAGE_SIZE
  const RESERVED_PAGES: nat := 1024

  // ---------- The abstract allocator ----------

  datatype Frames = Frames(total: nat, held: set<nat>)

  ghost predicate Sound(fr: Frames) {
    forall f :: f in fr.held ==> f < fr.total
  }

  /** The frames below n. */
  function Below(n: nat): (s: set<nat>)
    ensures forall f: nat :: f in s <==> f < n
    ensures |s| == n
  {
    if n == 0 then {} else Below(n - 1) + {n - 1}
  }

  /** The least frame at or above i that is not held, or the total if there is none. */
  function LowestFreeFrom(fr: Frames, i: nat): (f: nat)
    requires i <= fr.total
    ensures i <= f <= fr.total
    ensures forall g :: i <= g < f ==> g in fr.held
    ensures f < fr.total ==> f !in fr.held
    decreases fr.total - i
  {
    if i == fr.total || i !in fr.held then i else LowestFreeFrom(fr, i + 1)
  }

  function LowestFree(fr: Frames): nat {
    LowestFreeFrom(fr, 0)
  }

  function TakeState(fr: Frames): Frames {
    if LowestFree(fr) < fr.total then fr.(held := fr.held + {LowestFree(fr)}) else fr
  }

  /** The address returned for a request; 0 is the null pointer. */
  function TakeResult(fr: Frames): nat {
    if LowestFree(fr) < fr.total then LowestFree(fr) * PAGE_SIZE else 0
  }

  function GiveState(fr: Frames, addr: nat): Frames {
    fr.(held := fr.held - {addr / PAGE_SIZE})
  }

  /** The frames that are reserved at boot: those of the first 4 MB that exist. */
  function Reserved(total: nat): (s: set<nat>)
    ensures forall f: nat :: f in s <==> f < total && f < RESERVED_PAGES
    ensures |s| == if RESERVED_PAGES > total then total else RESERVED_PAGES
  {
    if total == 0 then {}
    else if total > RESERVED_PAGES then Reserved(total - 1)
    else Reserved(total - 1) + {total - 1}
  }

  function BootFrames(mb: nat): Frames {
    Frames(mb * 256, Reserved(mb * 256))
  }

  /** Giving back the frame just taken restores the state, so the next request repeats the same answer. */
  lemma TakeThenGive(fr: Frames)
    requires 0 in fr.held && LowestFree(fr) < fr.total
    ensures GiveState(TakeState(fr), TakeResult(fr)) == fr
    ensures TakeResult(fr) != 0
  {
    assert TakeResult(fr) / PAGE_SIZE == LowestFree(fr);
    assert TakeState(fr).held - {LowestFree(fr)} == fr.held;
  }

  lemma GiveTwice(fr: Frames, addr: nat)
    ensures GiveState(GiveState(fr, addr), addr) == GiveState(fr, addr)
  {
    assert fr.held - {addr / PAGE_SIZE} - {addr / PAGE_SIZE} == fr.held - {addr / PAGE_SIZE};
  }

  // ---------- Runs ----------

  datatype FrameOp = Take | Give(addr: nat)

  function OpState(fr: Frames, op: FrameOp): Frames {
    match op
    case Take => TakeState(fr)
    case Give(a) => GiveState(fr, a)
  }

  /** The state after the whole run. */
  function RunState(fr: Frames, ops: seq<FrameOp>): Frames
    decreases |ops|
  {
    if ops == [] then fr else RunState(OpState(fr, ops[0]), ops[1..])
  }

  /** What the i-th operation of a run returns (0 for a Give). */
  function RunResult(fr: Frames, ops: seq<FrameOp>, i: nat): nat
    requires i < |ops|
    decreases i
  {
    if i > 0 then RunResult(OpState(fr, ops[0]), ops[1..], i - 1)
    else if ops[0].Take? then TakeResult(fr) else 0
  }

  ghost predicate Releases(op: FrameOp, f: nat) {
    op.Give? && op.addr / PAGE_SIZE == f
  }

  /** A frame that is held and that nobody gives back is never handed out again. */
  lemma {:induction false} HeldIsNotHandedOut(fr: Frames, ops: seq<FrameOp>, f: nat, j: nat)
    requires f in fr.held && 0 < f
    requires j < |ops| && forall k :: 0 <= k < j ==> !Releases(ops[k], f)
    ensures RunResult(fr, ops, j) != f * PAGE_SIZE
    decreases j
  {
    if j > 0 {
      assert !Releases(ops[0], f);
      forall k | 0 <= k < j - 1 ensures !Releases(ops[1..][k], f) {
        assert ops[1..][k] == ops[k + 1];
      }
      HeldIsNotHandedOut(OpState(fr, ops[0]), ops[1..], f, j - 1);
    }
  }

  /** No double hand-out: two requests of a run get the same frame only if it was given back in between. */
  lemma {:induction false} NoDoubleHandOut(fr: Frames, ops: seq<FrameOp>, i: nat, j: nat)
    requires i < j < |ops|
    requires RunResult(fr, ops, i) == RunResult(fr, ops, j) != 0
    ensures exists k :: i < k < j && Releases(ops[k], RunResult(fr, ops, i) / PAGE_SIZE)
    decreases i
  {
    var next, rest := OpState(fr, ops[0]), ops[1..];
    if i > 0 {
      NoDoubleHandOut(next, rest, i - 1, j - 1);
      var k :| i - 1 < k < j - 1 && Releases(rest[k], RunResult(fr, ops, i) / PAGE_SIZE);
      assert Releases(ops[k + 1], RunResult(fr, ops, i) / PAGE_SIZE);
    } else {
      var f := RunResult(fr, ops, 0) / PAGE_SIZE;
      assert f == LowestFree(fr) && f in next.held;
      if forall k :: 0 <= k < j - 1 ==> !Releases(rest[k], f) {
        HeldIsNotHandedOut(next, rest, f, j - 1);
        assert false;
      }
      var k :| 0 <= k < j - 1 && Releases(rest[k], f);
      assert Releases(ops[k + 1], f);
    }
  }

  /**
    Frame 0 is the null pointer. As long as nobody gives it back, a null answer really means that no
    frame is free; giving back an address below 4096 is exactly what breaks this.
   */
  lemma {:induction false} NullMeansExhausted(fr: Frames, ops: seq<FrameOp>)
    requires 0 in fr.held && Sound(fr)
    ensures Sound(RunState(fr, ops))
    ensures (forall k :: 0 <= k < |ops| ==> !Releases(ops[k], 0)) ==>
              && 0 in RunState(fr, ops).held
              && (TakeResult(RunState(fr, ops)) == 0 <==> forall f :: 0 <= f < fr.total ==> f in RunState(fr, ops).held)
    ensures RunState(fr, ops).total == fr.total
    decreases |ops|
  {
    if ops != [] {
      var next := OpState(fr, ops[0]);
      if 0 in next.held {
        NullMeansExhausted(next, ops[1..]);
        assert forall k :: 0 <= k < |ops[1..]| ==> ops[1..][k] == ops[k + 1];
      } else {
        assert Releases(ops[0], 0);
        RunKeepsSound(next, ops[1..]);
      }
    }
  }

  lemma {:induction false} RunKeepsSound(fr: Frames, ops: seq<FrameOp>)
    requires Sound(fr)
    ensures Sound(RunState(fr, ops)) && RunState(fr, ops).total == fr.total
    decreases |ops|
  {
    if ops != [] {
      RunKeepsSound(OpState(fr, ops[0]), ops[1..]);
    }
  }

  lemma NullWithoutExhaustion(fr: Frames)
    requires 0 !in fr.held && 0 < fr.total
    ensures TakeResult(fr) == 0 && TakeState(fr) != fr
  {
    assert 0 in TakeState(fr).held;
  }

  // ---------- The bitmap ----------

  /** 1 << k in a byte. */
  function Mask(k: nat): bv8
    requires k < 8
  {
    if k == 0 then 1 else if k == 1 then 2 else if k == 2 then 4 else if k == 3 then 8
    else if k == 4 then 16 else if k == 5 then 32 else if k == 6 then 64 else 128
  }

  predicate Bit(bytes: seq<bv8>, bit: nat)
    requires bit < 8 * |bytes|
  {
    bytes[bit / 8] & Mask(bit % 8) != 0
  }

  lemma MaskBits(b: bv8, j: nat, k: nat)
    requires j < 8 && k < 8
    ensures ((b | Mask(k)) & Mask(j) != 0) == (j == k || b & Mask(j) != 0)
    ensures ((b & !Mask(k)) & Mask(j) != 0) == (j != k && b & Mask(j) != 0)
    ensures (0 as bv8) & Mask(j) == 0
  {
  }

  /** Setting a bit by | changes that bit only. */
  lemma SetBitLaw(bytes: seq<bv8>, bit: nat, other: nat)
    requires bit < 8 * |bytes| && other < 8 * |bytes|
    ensures var after := bytes[bit / 8 := bytes[bit / 8] | Mask(bit % 8)];
            Bit(after, other) == (other == bit || Bit(bytes, other))
  {
    if other / 8 == bit / 8 {
      MaskBits(bytes[bit / 8], other % 8, bit % 8);
    }
  }

  /** Clearing a bit by & ~ changes that bit only. */
  lemma ClearBitLaw(bytes: seq<bv8>, bit: nat, other: nat)
    requires bit < 8 * |bytes| && other < 8 * |bytes|
    ensures var after := bytes[bit / 8 := bytes[bit / 8] & !Mask(bit % 8)];
            Bit(after, other) == (other != bit && Bit(bytes, other))
  {
    if other / 8 == bit / 8 {
      MaskBits(bytes[bit / 8], other % 8, bit % 8);
    }
  }

  ghost predicate Represents(bytes: seq<bv8>, fr: Frames) {
    && 8 * |bytes| == MAX_PAGES
    && fr.total <= MAX_PAGES
    && Sound(fr)
    && forall f {:trigger Bit(bytes, f)} :: 0 <= f < MAX_PAGES ==> (Bit(bytes, f) <==> f in fr.held)
  }

  class FrameBitmap {
    const bitmap: array<bv8>
    var totalPages: nat
    var usedPages: nat
    ghost var frames: Frames

    /** The bitmap, the total and the counter all describe the same set of frames. */
    ghost predicate Valid()
      reads this, bitmap
    {
      && bitmap.Length == MAX_PAGES / 8
      && Represents(bitmap[..], frames)
      && totalPages == frames.total
      && usedPages == |frames.held|
    }

    constructor (mb: nat)
      requires mb <= MAX_RAM_MB
      ensures Valid() && fresh(bitmap)
      ensures frames == BootFrames(mb)
    {
      bitmap := new bv8[MAX_PAGES / 8];
      totalPages := mb * 1024 * 1024 / PAGE_SIZE;
      usedPages := if RESERVED_PAGES > mb * 256 then mb * 256 else RESERVED_PAGES;
      frames := Frames(mb * 256, {});
      new;
      ClearAll();
      SetFirst(usedPages);
      assert Below(usedPages) == Reserved(mb * 256);
    }

    /** Clears the whole bitmap: no frame is held. */
    method ClearAll()
      requires bitmap.Length == MAX_PAGES / 8 && frames.held == {} && frames.total <= MAX_PAGES
      modifies bitmap
      ensures Represents(bitmap[..], frames)
    {
      var i := 0;
      while i < bitmap.Length
        invariant 0 <= i <= bitmap.Length
        invariant forall k :: 0 <= k < i ==> bitmap[k] == 0
      {
        bitmap[i] := 0;
        i := i + 1;
      }
      forall f | 0 <= f < MAX_PAGES ensures !Bit(bitmap[..], f) {
        MaskBits(0, f % 8, 0);
      }
    }

    /** Marks the first n frames as held. */
    method SetFirst(n: nat)
      requires bitmap.Length == MAX_PAGES / 8 && Represents(bitmap[..], frames)
      requires frames.held == {} && n <= frames.total
      modifies bitmap, this`frames
      ensures frames == Frames(old(frames.total), Below(n)) && Represents(bitmap[..], frames)
    {
      var i := 0;
      while i < n
        invariant 0 <= i <= n
        invariant frames == Frames(old(frames.total), Below(i)) && Represents(bitmap[..], frames)
      {
        SetBit(i);
        i := i + 1;
      }
    }

    method SetBit(bit: nat)
      requires bitmap.Length == MAX_PAGES / 8 && Represents(bitmap[..], frames) && bit < frames.total
      modifies bitmap, this`frames
      ensures frames == old(frames).(held := old(frames).held + {bit})
      ensures Represents(bitmap[..], frames)
    {
      ghost var before := bitmap[..];
      bitmap[bit / 8] := bitmap[bit / 8] | Mask(bit % 8);
      frames := frames.(held := frames.held + {bit});
      forall f | 0 <= f < MAX_PAGES ensures Bit(bitmap[..], f) <==> f in frames.held {
        SetBitLaw(before, bit, f);
        assert bitmap[..] == before[bit / 8 := before[bit / 8] | Mask(bit % 8)];
      }
    }

    method ClearBit(bit: nat)
      requires bitmap.Length == MAX_PAGES / 8 && Represents(bitmap[..], frames) && bit < frames.total
      modifies bitmap, this`frames
      ensures frames == old(frames).(held := old(frames).held - {bit})
      ensures Represents(bitmap[..], frames)
    {
      ghost var before := bitmap[..];
      bitmap[bit / 8] := bitmap[bit / 8] & !Mask(bit % 8);
      frames := frames.(held := frames.held - {bit});
      forall f | 0 <= f < MAX_PAGES ensures Bit(bitmap[..], f) <==> f in frames.held {
        ClearBitLaw(before, bit, f);
        assert bitmap[..] == before[bit / 8 := before[bit / 8] & !Mask(bit % 8)];
      }
    }

    method TestBit(bit: nat) returns (b: bool)
      requires Valid() && bit < MAX_PAGES
      ensures b <==> bit in frames.held
    {
      b := bitmap[bit / 8] & Mask(bit % 8) != 0;
      assert b == Bit(bitmap[..], bit);
    }

    method AllocPage() returns (addr: nat)
      requires Valid()
      modifies this`usedPages, this`frames, bitmap
      ensures Valid()
      ensures frames == TakeState(old(frames))
      ensures addr == TakeResult(old(frames))
    {
      var i := 0;
      while i < totalPages
        invariant Valid() && frames == old(frames)
        invariant 0 <= i <= totalPages
        invariant forall f :: 0 <= f < i ==> f in frames.held
      {
        var taken := TestBit(i);
        if !taken {
          assert LowestFree(frames) == i;
          SetBit(i);
          usedPages := usedPages + 1;
          return i * PAGE_SIZE;
        }
        i := i + 1;
      }
      return 0;
    }

    method FreePage(addr: nat)
      requires Valid()
      modifies this`usedPages, this`frames, bitmap
      ensures Valid()
      ensures frames == GiveState(old(frames), addr)
    {
      var index := addr / PAGE_SIZE;
      if index >= totalPages {
        assert frames.held - {index} == frames.held;
        return;
      }
      var taken := TestBit(index);
      if taken {
        ClearBit(index);
        usedPages := usedPages - 1;
      } else {
        assert frames.held - {index} == frames.held;
      }
    }

    method FreePages() returns (n: int)
      requires Valid()
      ensures n == |set f: nat | 0 <= f < frames.total && f !in frames.held|
    {
      n := totalPages - usedPages;
      CountComplement(frames);
    }
  }

  lemma CountComplement(fr: Frames)
    requires Sound(fr)
    ensures |set f: nat | 0 <= f < fr.total && f !in fr.held| == fr.total - |fr.held|
  {
    var free := set f: nat | 0 <= f < fr.total && f !in fr.held;
    assert Below(fr.total) == free + fr.held && free !! fr.held;
  }
}
