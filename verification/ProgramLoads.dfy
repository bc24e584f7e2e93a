/**
  A load after boot that loses a byte (src/fs/elf.cpp:94-149): a program with two segments on one page.
 */
module ProgramLoads {
  import opened Common
  import opened FrameAllocator
  import opened PageTables
  import opened AddressSpaces
  import opened ElfImage
  import opened ElfLoader
  import BootPaging

  const BASE_ADDR: nat := 0x40000000

  /** One byte at the start of a page and one in its middle, where programs are linked to. */
  function TwoOnAPage(): ElfFile {
    ElfFile(ELF_MAGIC, 1, 1, 3, 2, BASE_ADDR,
            [Phdr(PT_LOAD, 0, BASE_ADDR, 1, 1, 5), Phdr(PT_LOAD, 1, BASE_ADDR + 0x800, 1, 1, 6)], [7, 9])
  }

  lemma PagesOfBoth()
    ensures var segs := TwoOnAPage().phdrs;
            && StartPage(segs[0]) == 0x40000 && EndPage(segs[0]) == 0x40001
            && StartPage(segs[1]) == 0x40000 && EndPage(segs[1]) == 0x40001
            && LastWith(segs, 2, 0x40000) == 1 && AllSized(segs)
  {
  }

  /** After boot the slot of that page is absent, so the file may be loaded. */
  lemma MayBeLoaded(w: World, mb: nat)
    requires BootPaging.Booted(w, mb)
    ensures Acceptable(BaseOf(w), TwoOnAPage())
  {
    PagesOfBoth();
    assert w.store[w.kernel][256] == 0 by { assert BootPaging.EndSlots(mb) <= 256; }
    assert 256 !in BaseOf(w).shared;
    hide BaseOf, Inv, BootPaging.Booted;
  }

  /** Two frames for the page, the first of which is lost, and one for its table. */
  lemma ThreeFrames(w: World, mb: nat)
    requires BootPaging.Booted(w, mb) && mb >= 5
    ensures w.kernel < MAX_PAGES && EnoughForAll(w, w.kernel, TwoOnAPage().phdrs)
  {
    var segs, absent := TwoOnAPage().phdrs, AbsentSlots(w, w.kernel);
    PagesOfBoth();
    NeedIs(absent, segs, 0);
    assert SlotsIn(0x40001, 0x40001) == {};
    assert SlotsIn(0x40000, 0x40001) == {256};
    assert SegmentSlots(segs, 2) == {} && SegmentSlots(segs, 1) == {256} && SegmentSlots(segs, 0) == {256};
    assert PageCount(segs, 2) == 0 && PageCount(segs, 1) == 1 && PageCount(segs, 0) == 2;
    assert absent * {256} <= {256};
    SetAtMost(absent, 256);
    FreeAtBoot(w, mb);
  }

  lemma SetAtMost(s: set<nat>, x: nat)
    ensures |s * {x}| <= 1
  {
    assert s * {x} == {x} || s * {x} == {};
  }

  lemma FreeAtBoot(w: World, mb: nat)
    requires BootPaging.Booted(w, mb) && mb >= 5
    ensures FreeCount(w.frames) >= 3
  {
    BootPaging.BootHeld(mb);
  }

  /** What is shown of the first segment's byte: what the frame of the second one held before. */
  ghost predicate FirstIsLost(w: World, w': World) {
    && Inv(w) && Inv(w') && w.kernel in w'.spaces && w.kernel < MAX_PAGES
    && var t := Walk(w'.store, w.kernel, 0x40000);
       && t.To? && t.frame < MAX_PAGES && t.frame !in w.frames.held
       && ByteAt(w'.store, w.kernel, BASE_ADDR) == FrameByte(w.store, t.frame, BASE_ADDR)
       && ByteAt(w'.store, w.kernel, BASE_ADDR + 0x800) == 9
  }

  lemma LostWhenShown(w: World, w': World)
    requires Inv(w) && Inv(w') && w.kernel in w'.spaces && Acceptable(BaseOf(w), TwoOnAPage())
    requires forall a: nat :: a < 0x1_0000_0000 ==> ShownAt(w, w', w.kernel, TwoOnAPage(), a)
    ensures FirstIsLost(w, w')
  {
    PagesOfBoth();
    Sizes(w, w.kernel);
    assert ShownAt(w, w', w.kernel, TwoOnAPage(), BASE_ADDR);
    assert ShownAt(w, w', w.kernel, TwoOnAPage(), BASE_ADDR + 0x800);
    hide Inv, Walk, ByteAt, FrameByte, LastWith;
  }

  /** The byte 7 of the file is not there unless the frame happens to hold one, say if free memory is zero. */
  lemma NotVisible(w: World, w': World)
    requires FirstIsLost(w, w') && Acceptable(BaseOf(w), TwoOnAPage())
    requires forall f :: 0 <= f < MAX_PAGES && f !in w.frames.held ==> w.store[f] == EmptyTable()
    ensures !Visible(w'.store, w.kernel, [7, 9], TwoOnAPage().phdrs[0])
  {
    var t := Walk(w'.store, w.kernel, 0x40000);
    assert FrameByte(w.store, t.frame, BASE_ADDR) == 0;
    assert SegByte([7, 9], TwoOnAPage().phdrs[0], 0) == 7;
  }

  /** Boot, and elf_load of that file into the kernel's space: it succeeds, and the first byte is not loaded. */
  method SharedPageExample(mb: nat, dir: nat, boot: nat) returns (vm: VirtualMemory, out: Outcome, ghost w: World)
    requires 5 <= mb <= MAX_RAM_MB && 0 < dir < RESERVED_PAGES && boot < RESERVED_PAGES && dir != boot
    ensures vm.Valid() && BootPaging.Booted(w, mb) && out.Loaded? && FirstIsLost(w, vm.State())
  {
    hide Inv, ShownAt, BootPaging.Booted, FirstIsLost, EnoughForAll, BaseOf, Acceptable;
    var vm0 := BootPaging.BootMemory(mb, dir, boot);
    vm := vm0;
    w := vm.State();
    KernelIsLive(w, mb);
    MayBeLoaded(w, mb);
    ThreeFrames(w, mb);
    var info;
    out, info := LoadInto(vm, TwoOnAPage(), true, vm.kernelSpace, ElfInfo(0, 0, 0));
    LostWhenShown(w, vm.State());
  }

  lemma KernelIsLive(w: World, mb: nat)
    requires BootPaging.Booted(w, mb)
    ensures Inv(w) && w.kernel in w.spaces
  {
  }
}
