/**
  The allocation of a kernel stack (src/process/process.cpp:37-61): two frames that must be neighbours,
  tried again until they are.
 */
module KernelStacks {

  import opened FrameAllocator

  /** What one attempt comes to: a stack at this address, no memory, or another attempt. */
  datatype Attempt = Stack(bottom: nat) | OutOfMemory | TryAgain

  function Give(fr: Frames, addr: nat): Frames {
    if addr == 0 then fr else GiveState(fr, addr)
  }

  function AttemptResult(fr: Frames): Attempt {
    var lo, hi := TakeResult(fr), TakeResult(TakeState(fr));
    if lo == 0 || hi == 0 then OutOfMemory else if hi != lo + PAGE_SIZE then TryAgain else Stack(lo)
  }

  function AttemptState(fr: Frames): Frames {
    var lo, hi := TakeResult(fr), TakeResult(TakeState(fr));
    var taken := TakeState(TakeState(fr));
    if AttemptResult(fr).Stack? then taken else Give(Give(taken, lo), hi)
  }

  /** f and g are the two lowest free frames. */
  ghost predicate LowestTwo(fr: Frames, f: nat, g: nat) {
    && f < g < fr.total && f !in fr.held && g !in fr.held
    && forall k: nat :: k < g && k != f ==> k in fr.held
  }

  method TryStack(pmm: FrameBitmap) returns (r: Attempt)
    requires pmm.Valid()
    modifies pmm`usedPages, pmm`frames, pmm.bitmap
    ensures pmm.Valid() && pmm.frames == AttemptState(old(pmm.frames)) && r == AttemptResult(old(pmm.frames))
  {
    hide Represents, LowestFreeFrom;
    var lo := pmm.AllocPage();
    var hi := pmm.AllocPage();
    if lo == 0 || hi == 0 {
      if lo != 0 { pmm.FreePage(lo); }
      if hi != 0 { pmm.FreePage(hi); }
      return OutOfMemory;
    }
    if hi != lo + PAGE_SIZE {
      pmm.FreePage(lo);
      pmm.FreePage(hi);
      return TryAgain;
    }
    return Stack(lo);
  }

  /**
    An attempt succeeds exactly when the two lowest free frames are neighbours, and then takes those two; it
    gives up exactly when there are no two free frames; and when it does not succeed it leaves every frame
    as it was.
   */
  lemma AttemptIsExact(fr: Frames)
    requires 0 in fr.held
    ensures forall f: nat, g: nat :: LowestTwo(fr, f, g) && g == f + 1 ==> AttemptResult(fr) == Stack(f * PAGE_SIZE)
    ensures AttemptResult(fr).Stack? ==>
              var f := AttemptResult(fr).bottom / PAGE_SIZE;
              LowestTwo(fr, f, f + 1) && AttemptState(fr).held == fr.held + {f, f + 1}
    ensures AttemptResult(fr).TryAgain? <==> exists f, g :: LowestTwo(fr, f, g) && g != f + 1
    ensures !AttemptResult(fr).Stack? ==> AttemptState(fr) == fr
  {
    var f, mid := LowestFree(fr), TakeState(fr);
    var g := LowestFree(mid);
    if f < fr.total && g < fr.total {
      assert LowestTwo(fr, f, g);
      assert forall f', g' :: LowestTwo(fr, f', g') ==> f' == f && g' == g;
    }
    assert !AttemptResult(fr).Stack? ==> AttemptState(fr).held == fr.held;
  }

  function StateAfter(fr: Frames, attempts: nat): Frames {
    if attempts == 0 then fr else AttemptState(StateAfter(fr, attempts - 1))
  }

  /** An attempt that has to be repeated is repeated for ever: the recursion ends only if it never starts. */
  lemma {:induction false} RepeatsForEver(fr: Frames, attempts: nat)
    requires 0 in fr.held && AttemptResult(fr).TryAgain?
    ensures StateAfter(fr, attempts) == fr && AttemptResult(StateAfter(fr, attempts)).TryAgain?
  {
    if attempts > 0 {
      RepeatsForEver(fr, attempts - 1);
      AttemptIsExact(fr);
    }
  }
}
