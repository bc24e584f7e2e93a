/**
  elf_load_into of src/fs/elf.cpp: mapping, copying and zeroing the PT_LOAD segments of a program through
  the page tables of the space it is loaded into. The file's headers are given in decoded form.
 */
module ElfLoader {
  import opened Common
  import opened FrameAllocator
  import opened PageTables
  import opened AddressSpaces
  import opened ElfImage

  const ELF_MAGIC: nat := 0x464C457F
  const PT_LOAD: nat := 1

  datatype Phdr = Phdr(kind: Word, offset: Word, vaddr: Word, filesz: Word, memsz: Word, flags: Word)

  datatype ElfFile = ElfFile(magic: Word, cls: Byte, data: Byte, machine: nat, kind: nat, entry: Word,
                             phdrs: seq<Phdr>, bytes: seq<Byte>)

  datatype ElfInfo = ElfInfo(entry: Word, loadAddr: Word, size: Word)

  datatype Outcome = Loaded | Failed | Faulted

  // ---------- Segments ----------

  predicate IsLoad(s: Phdr) { s.kind == PT_LOAD }

  function StartPage(s: Phdr): nat { s.vaddr / PAGE_SIZE }

  function EndPage(s: Phdr): nat { (s.vaddr + s.memsz + 0xFFF) / PAGE_SIZE }

  predicate InPages(s: Phdr, p: nat) { StartPage(s) <= p < EndPage(s) }

  predicate InSegment(s: Phdr, a: nat) { s.vaddr <= a < s.vaddr + s.memsz }

  /** What the loader relies on for one segment: it lies in the file, fits the address space, and may be mapped. */
  ghost predicate Loadable(base: Base, bytes: seq<Byte>, s: Phdr) {
    && s.offset + s.filesz <= |bytes| && s.filesz <= s.memsz && s.vaddr + s.memsz + 0xFFF < 0x1_0000_0000
    && forall p: nat :: InPages(s, p) ==> p < PAGES && p / ENTRIES !in base.shared
  }

  /** The content the segment promises: its file bytes, then zeros. */
  function SegByte(bytes: seq<Byte>, s: Phdr, j: nat): Byte
    requires s.offset + s.filesz <= |bytes|
  {
    if j < s.filesz then bytes[s.offset + j] else 0
  }

  /** The page is open to the program, and may be written exactly if the segment's PF_W bit is set. */
  predicate Permits(t: Translation, s: Phdr) {
    t.To? && t.user && (t.writable <==> s.flags / 2 % 2 == 1)
  }

  lemma AddressInPages(s: Phdr, a: nat)
    requires InSegment(s, a)
    ensures InPages(s, a / PAGE_SIZE)
  {
  }

  /** Every page of a segment that is not empty has one of its bytes. */
  lemma PageHasByte(s: Phdr, p: nat) returns (a: nat)
    requires InPages(s, p) && s.memsz > 0
    ensures InSegment(s, a) && a / PAGE_SIZE == p
  {
    a := if p == StartPage(s) then s.vaddr else p * PAGE_SIZE;
  }

  // ---------- The frames that are needed ----------

  function FreeCount(fr: Frames): int {
    fr.total - |fr.held|
  }

  lemma TakeCount(fr: Frames)
    requires Sound(fr)
    ensures FreeCount(TakeState(fr)) == FreeCount(fr) - if LowestFree(fr) < fr.total then 1 else 0
    ensures LowestFree(fr) < fr.total <==> FreeCount(fr) > 0
    ensures FreeCount(fr) >= 0
  {
    HeldAtMostTotal(fr);
  }

  /** One frame for a page, and one for its table if the slot has none. */
  function NeedPage(absent: set<nat>, page: nat): nat {
    if page / ENTRIES in absent then 2 else 1
  }

  /** The frames for the pages from this one up to end, the slots without a table being given. */
  function NeedPages(absent: set<nat>, page: nat, end: nat): nat
    decreases end - page
  {
    if page >= end then 0 else NeedPage(absent, page) + NeedPages(absent - {page / ENTRIES}, page + 1, end)
  }

  function SlotsIn(page: nat, end: nat): (s: set<nat>)
    ensures forall i :: i in s <==> exists p: nat :: page <= p < end && p / ENTRIES == i
    decreases end - page
  {
    if page >= end then {} else {page / ENTRIES} + SlotsIn(page + 1, end)
  }

  /** The frames for the segments from the i-th on. */
  function NeedFor(absent: set<nat>, segs: seq<Phdr>, i: nat): nat
    requires i <= |segs|
    decreases |segs| - i
  {
    if i == |segs| then 0
    else if !IsLoad(segs[i]) then NeedFor(absent, segs, i + 1)
    else
      var s := segs[i];
      NeedPages(absent, StartPage(s), EndPage(s)) + NeedFor(absent - SlotsIn(StartPage(s), EndPage(s)), segs, i + 1)
  }

  function PageCount(segs: seq<Phdr>, i: nat): nat
    requires i <= |segs|
    decreases |segs| - i
  {
    if i == |segs| then 0
    else PageCount(segs, i + 1)
         + if IsLoad(segs[i]) && EndPage(segs[i]) > StartPage(segs[i]) then EndPage(segs[i]) - StartPage(segs[i]) else 0
  }

  function SegmentSlots(segs: seq<Phdr>, i: nat): set<nat>
    requires i <= |segs|
    decreases |segs| - i
  {
    if i == |segs| then {}
    else SegmentSlots(segs, i + 1) + if IsLoad(segs[i]) then SlotsIn(StartPage(segs[i]), EndPage(segs[i])) else {}
  }

  lemma {:induction false} NeedPagesIs(absent: set<nat>, page: nat, end: nat)
    ensures NeedPages(absent, page, end) == (if end > page then end - page else 0) + |absent * SlotsIn(page, end)|
    decreases end - page
  {
    if page >= end {
      assert absent * SlotsIn(page, end) == {};
    } else {
      var slot := page / ENTRIES;
      NeedPagesIs(absent - {slot}, page + 1, end);
      var rest := (absent - {slot}) * SlotsIn(page + 1, end);
      assert absent * SlotsIn(page, end) == rest + if slot in absent then {slot} else {};
    }
  }

  /** One frame for every page of every segment, and one for every slot they touch that has no table. */
  lemma {:induction false} NeedIs(absent: set<nat>, segs: seq<Phdr>, i: nat)
    requires i <= |segs|
    ensures NeedFor(absent, segs, i) == PageCount(segs, i) + |absent * SegmentSlots(segs, i)|
    decreases |segs| - i
  {
    if i == |segs| {
      assert absent * SegmentSlots(segs, i) == {};
    } else if !IsLoad(segs[i]) {
      NeedIs(absent, segs, i + 1);
      assert SegmentSlots(segs, i) == SegmentSlots(segs, i + 1);
    } else {
      var here, later := SlotsIn(StartPage(segs[i]), EndPage(segs[i])), SegmentSlots(segs, i + 1);
      NeedPagesIs(absent, StartPage(segs[i]), EndPage(segs[i]));
      NeedIs(absent - here, segs, i + 1);
      assert absent * SegmentSlots(segs, i) == absent * here + (absent - here) * later;
    }
  }

  // ---------- The loops ----------

  /** A byte store in ring 0 with the space active; it faults if the page is absent. */
  method WriteByte(vm: VirtualMemory, space: nat, a: nat, b: Byte, ghost base: Base, ghost img: map<nat, nat>,
        ghost bytes: map<nat, Byte>)
    returns (ok: bool)
    requires vm.Valid() && Live(vm.State(), space) && Loading(base, vm.State(), space / PAGE_SIZE, img, bytes)
    requires a < 0x1_0000_0000
    requires a / PAGE_SIZE in img || Views(vm.State())[space / PAGE_SIZE][a / PAGE_SIZE] == Fault
    modifies vm.ram.words
    ensures vm.Valid() && Same(old(vm.State()), vm.State(), space / PAGE_SIZE)
    ensures ok <==> a / PAGE_SIZE in img
    ensures ok ==> Loading(base, vm.State(), space / PAGE_SIZE, img, bytes[a := b])
    ensures !ok ==> vm.State() == old(vm.State())
  {
    hide Loading, Same, Inv, Represents, Views, Present, FrameOf, PutByte;
    var pd := space / PAGE_SIZE;
    ghost var w := vm.State();
    WriteTarget(base, w, pd, img, bytes, a);
    SameStart(w, pd);
    var de := vm.ram.Peek(pd, a / 0x400000);
    if !Present(de) {
      return false;
    }
    var pe := vm.ram.Peek(FrameOf(de), a / 0x1000 % 0x400);
    if !Present(pe) {
      return false;
    }
    LoadingStore(base, w, pd, img, bytes, a, b);
    var i := a % PAGE_SIZE / 4;
    vm.ram.Poke(FrameOf(pe), i, PutByte(vm.ram.Peek(FrameOf(pe), i), a % 4, b));
    assert vm.State() == Stored(w, img[a / PAGE_SIZE], a, b);
    ViewLength(base, vm.State(), pd, img, bytes[a := b]);
    return true;
  }

  /** Both levels are present exactly if the page is part of the image, and lead to its frame. */
  lemma WriteTarget(base: Base, w: World, dir: nat, img: map<nat, nat>, bytes: map<nat, Byte>, a: nat)
    requires Loading(base, w, dir, img, bytes) && a < 0x1_0000_0000
    requires a / PAGE_SIZE in img || Views(w)[dir][a / PAGE_SIZE] == Fault
    ensures dir < MAX_PAGES && WellFormed(w.store) && a / 0x400000 < ENTRIES
    ensures var de := w.store[dir][a / 0x400000];
            if !Present(de) then a / PAGE_SIZE !in img
            else && FrameOf(de) < MAX_PAGES
                 && var pe := w.store[FrameOf(de)][a / 0x1000 % 0x400];
                    && (Present(pe) <==> a / PAGE_SIZE in img)
                    && (Present(pe) ==> FrameOf(pe) == img[a / PAGE_SIZE])
  {
    SplitAddress(a);
    Sizes(w, dir);
    WalkOf(w, dir, a / PAGE_SIZE);
    if a / PAGE_SIZE in img { ImageFrame(w, dir, img, a / PAGE_SIZE); }
    hide Loading, Inv, FrameOf;
  }

  lemma ImageFrame(w: World, dir: nat, img: map<nat, nat>, p: nat)
    requires Inv(w) && dir in w.spaces && Image(w, dir, img) && p in img
    ensures p < PAGES && Views(w)[dir][p].To? && Views(w)[dir][p].frame == img[p]
  {
  }

  lemma WalkOf(w: World, d: nat, p: nat)
    requires Inv(w) && d in w.spaces && p < PAGES
    ensures var de := w.store[d][p / ENTRIES];
            && (!Present(de) ==> Views(w)[d][p] == Fault)
            && (Present(de) ==> FrameOf(de) < MAX_PAGES)
            && (Present(de) ==> Views(w)[d][p] == Restrict(de, Decode(w.store[FrameOf(de)][p % ENTRIES])))
  {
    assert SlotOk(w, d, p / ENTRIES);
    var de := w.store[d][p / ENTRIES];
    if Present(de) {
      assert RoleOk(w, FrameOf(de));
    }
    assert Views(w)[d][p] == Walk(w.store, d, p);
  }

  /** What mapping one page does: it is backed by a frame now, or it is absent for want of a table. */
  ghost predicate PageMapped(base: Base, w: World, w': World, dir: nat, img: map<nat, nat>, img': map<nat, nat>,
        bytes: map<nat, Byte>, page: nat, seg: Phdr)
    requires Inv(w) && dir in w.spaces && page < PAGES
  {
    && Loading(base, w', dir, img', Dropped(bytes, page))
    && (page in img' ==> img' == img[page := img'[page]] && Permits(Views(w')[dir][page], seg))
    && (page !in img' ==> img' == img && Views(w')[dir][page] == Fault)
    && (forall q :: 0 <= q < PAGES && q != page ==> Views(w')[dir][q] == Views(w)[dir][q])
  }

  /** The flags of a page of this segment. */
  predicate FlagsFor(flags: nat, seg: Phdr) {
    flags < PAGE_SIZE && Present(flags) && User(flags) && (Writable(flags) <==> seg.flags / 2 % 2 == 1)
  }

  lemma PageMappedOk(base: Base, w: World, w': World, dir: nat, img: map<nat, nat>, bytes: map<nat, Byte>, page: nat,
        f: nat, flags: nat, seg: Phdr)
    requires Loading(base, w, dir, img, bytes) && page < PAGES && f < MAX_PAGES && FlagsFor(flags, seg)
    requires Inv(w') && FrameBooks(w, w', dir) && KeepsForeign(w, w')
    requires Views(w') == MapAbstract(Views(w), dir, page, Decode(Entry(f, flags)))
    requires FreshFrame(base, w, img, f)
    ensures PageMapped(base, w, w', dir, img, img[page := f], bytes, page, seg)
  {
    EntryFields(f, flags);
    LoadingMap(base, w, w', dir, img, bytes, page, f, Decode(Entry(f, flags)));
    assert Permits(Decode(Entry(f, flags)), seg);
  }

  /** A frame that has just been taken, with the content it had before the load. */
  ghost predicate FreshFrame(base: Base, w: World, img: map<nat, nat>, f: nat) {
    && f < MAX_PAGES && |w.store| == |base.store| == MAX_PAGES && w.store[f] == base.store[f]
    && f in w.frames.held && f !in w.owner && f !in base.frames.held && f < base.frames.total
    && forall p :: p in img ==> img[p] != f
  }

  /** A page whose slot has no table is absent, and has no bytes. */
  lemma PageNotMapped(base: Base, w: World, dir: nat, img: map<nat, nat>, bytes: map<nat, Byte>, page: nat, seg: Phdr)
    requires Loading(base, w, dir, img, bytes) && page < PAGES && !Present(w.store[dir][page / ENTRIES])
    ensures page !in img && PageMapped(base, w, w, dir, img, img, bytes, page, seg)
  {
    WalkOf(w, dir, page);
    assert page !in img;
    assert Dropped(bytes, page) == bytes;
  }

  /** The frames that are left, and the slots without a table, after a page. */
  ghost predicate PageCost(w: World, w': World, dir: nat, page: nat, mapped: bool, need: nat)
    requires WellFormed(w.store) && WellFormed(w'.store) && dir < MAX_PAGES
  {
    && (mapped <==> FreeCount(w.frames) >= need)
    && (mapped ==> && FreeCount(w'.frames) == FreeCount(w.frames) - need
                   && AbsentSlots(w', dir) == AbsentSlots(w, dir) - {page / ENTRIES})
    && (!mapped ==> FreeCount(w'.frames) == 0)
  }

  lemma FrameMapped(base: Base, w: World, w': World, dir: nat, img: map<nat, nat>, bytes: map<nat, Byte>, page: nat,
        f: nat, flags: nat, seg: Phdr)
    requires Loading(base, w, dir, img, bytes) && page < PAGES && f < MAX_PAGES && FlagsFor(flags, seg)
    requires Inv(w) && dir in w.spaces && Inv(w') && FrameBooks(w, w', dir) && KeepsForeign(w, w')
    requires Views(w') == MapAbstract(Views(w), dir, page, Decode(Entry(f, flags)))
    requires FreshFrame(base, w, img, f) && Confined(w, dir, page / ENTRIES)
    requires w' == Mapped(w, dir, page, Entry(f, flags))
    requires w'.frames == if Present(w.store[dir][page / ENTRIES]) then w.frames else TakeState(w.frames)
    requires Present(w.store[dir][page / ENTRIES]) || LowestFree(w.frames) < w.frames.total
    ensures dir < MAX_PAGES && PageMapped(base, w, w', dir, img, img[page := f], bytes, page, seg)
    ensures PageCost(w, w', dir, page, true, NeedPage(AbsentSlots(w, dir), page) - 1)
  {
    hide PageMapped, Mapped;
    PageMappedOk(base, w, w', dir, img, bytes, page, f, flags, seg);
    MappedSlots(w, dir, page, Entry(f, flags));
    hide Loading, FreshFrame, MapAbstract, FrameBooks, KeepsForeign, LowestFreeFrom;
    TakeCount(w.frames);
  }

  lemma FrameMissing(base: Base, w: World, dir: nat, img: map<nat, nat>, bytes: map<nat, Byte>, page: nat, seg: Phdr)
    requires Loading(base, w, dir, img, bytes) && page < PAGES && !Present(w.store[dir][page / ENTRIES])
    requires LowestFree(w.frames) == w.frames.total
    ensures page !in img && Inv(w) && dir in w.spaces && PageMapped(base, w, w, dir, img, img, bytes, page, seg)
    ensures dir < MAX_PAGES && PageCost(w, w, dir, page, false, NeedPage(AbsentSlots(w, dir), page) - 1)
  {
    PageNotMapped(base, w, dir, img, bytes, page, seg);
    TakeCount(w.frames);
    hide PageMapped, Loading;
  }

  /** vmm_map(space, page, phys, flags), whose failure the loader ignores: the page then stays absent. */
  method MapFrame(vm: VirtualMemory, space: nat, page: nat, phys: nat, flags: nat, ghost seg: Phdr, ghost base: Base,
        ghost img: map<nat, nat>, ghost bytes: map<nat, Byte>)
    returns (ghost img': map<nat, nat>)
    requires vm.Valid() && Live(vm.State(), space) && Loading(base, vm.State(), space / PAGE_SIZE, img, bytes)
    requires page < PAGES && page / ENTRIES !in base.shared
    requires FlagsFor(flags, seg) && phys < 0x1_0000_0000
    requires phys / PAGE_SIZE < MAX_PAGES && FreshFrame(base, vm.State(), img, phys / PAGE_SIZE)
    modifies vm`owner, vm.ram.words, vm.pmm, vm.pmm.bitmap
    ensures vm.Valid() && vm.spaces == old(vm.spaces) && space / PAGE_SIZE < MAX_PAGES
    ensures PageMapped(base, old(vm.State()), vm.State(), space / PAGE_SIZE, img, img', bytes, page, seg)
    ensures PageCost(old(vm.State()), vm.State(), space / PAGE_SIZE, page, page in img',
                     NeedPage(AbsentSlots(old(vm.State()), space / PAGE_SIZE), page) - 1)
  {
    hide Loading, FreshFrame, PageMapped, FrameBooks, KeepsForeign, PageCost, Mapped, MapAbstract, Inv, Everywhere;
    ghost var w, dir := vm.State(), space / PAGE_SIZE;
    StillConfined(base, w, dir, img, bytes, page / ENTRIES);
    PageAddress(page);
    var r := vm.MapPage(space, page * PAGE_SIZE, phys, flags);
    if r == 0 {
      FrameMapped(base, w, vm.State(), dir, img, bytes, page, phys / PAGE_SIZE, flags, seg);
      img' := img[page := phys / PAGE_SIZE];
    } else {
      FrameMissing(base, w, dir, img, bytes, page, seg);
      img' := img;
    }
  }

  /** One round of the mapping loop: a fresh frame, mapped with the segment's permissions. */
  method MapOnePage(vm: VirtualMemory, space: nat, page: nat, seg: Phdr, ghost base: Base, ghost img: map<nat, nat>,
        ghost bytes: map<nat, Byte>)
    returns (ok: bool, ghost img': map<nat, nat>)
    requires vm.Valid() && Live(vm.State(), space) && Loading(base, vm.State(), space / PAGE_SIZE, img, bytes)
    requires page < PAGES && page / ENTRIES !in base.shared
    modifies vm`owner, vm.ram.words, vm.pmm, vm.pmm.bitmap
    ensures vm.Valid() && vm.spaces == old(vm.spaces) && space / PAGE_SIZE < MAX_PAGES
    ensures ok <==> FreeCount(old(vm.pmm.frames)) > 0
    ensures !ok ==> vm.State() == old(vm.State()) && img' == img
    ensures ok ==> PageMapped(base, old(vm.State()), vm.State(), space / PAGE_SIZE, img, img', bytes, page, seg)
    ensures ok ==> PageCost(old(vm.State()), vm.State(), space / PAGE_SIZE, page, page in img',
                            NeedPage(AbsentSlots(old(vm.State()), space / PAGE_SIZE), page))
  {
    hide Loading, PageMapped;
    ghost var w, dir := vm.State(), space / PAGE_SIZE;
    TakeCount(w.frames);
    var phys := vm.pmm.AllocPage();
    if phys == 0 {
      return false, img;
    }
    LoadingTake(base, w, dir, img, bytes);
    ForeignFrames(w, TakeState(w.frames));
    assert vm.State() == w.(frames := TakeState(w.frames));
    var flags := VMM_PRESENT + VMM_USER + if seg.flags / 2 % 2 == 1 then VMM_WRITABLE else 0;
    img' := MapFrame(vm, space, page, phys, flags, seg, base, img, bytes);
    SameViews(base, w, vm.State(), dir, img, img', bytes, page, seg);
    ok := true;
  }

  /** Taking a frame changes no translation. */
  lemma SameViews(base: Base, w: World, w': World, dir: nat, img: map<nat, nat>, img': map<nat, nat>,
        bytes: map<nat, Byte>, page: nat, seg: Phdr)
    requires Inv(w) && Inv(w.(frames := TakeState(w.frames))) && dir in w.spaces && page < PAGES
    requires Views(w.(frames := TakeState(w.frames))) == Views(w)
    requires PageMapped(base, w.(frames := TakeState(w.frames)), w', dir, img, img', bytes, page, seg)
    ensures PageMapped(base, w, w', dir, img, img', bytes, page, seg)
  {
    hide Inv, Loading;
  }

  lemma PageAddress(page: nat)
    requires page < PAGES
    ensures page * PAGE_SIZE < 0x1_0000_0000
    ensures page * PAGE_SIZE / PAGE_SIZE == page && page * PAGE_SIZE / 0x400000 == page / ENTRIES
  {
  }

  /** The bytes that do not lie on the pages from start up to page. */
  ghost function DroppedPages(bytes: map<nat, Byte>, start: nat, page: nat): map<nat, Byte> {
    map a | a in bytes && !(start <= a / PAGE_SIZE < page) :: bytes[a]
  }

  /** The mapping loop has reached this page; the pages before are backed by the image, or absent. */
  ghost predicate PagesDone(base: Base, w0: World, w: World, dir: nat, img: map<nat, nat>, img': map<nat, nat>,
        bytes: map<nat, Byte>, seg: Phdr, page: nat)
  {
    && Inv(w0) && dir in w0.spaces && Loading(base, w, dir, img', DroppedPages(bytes, StartPage(seg), page))
    && page <= PAGES && PagesAre(Views(w0)[dir], Views(w)[dir], img, img', seg, page)
  }

  ghost predicate PagesAre(view0: seq<Translation>, view: seq<Translation>, img: map<nat, nat>, img': map<nat, nat>,
        seg: Phdr, page: nat)
  {
    var start := StartPage(seg);
    && |view0| == |view| == PAGES && page <= PAGES
    && (forall p :: p in img ==> p in img')
    && (forall p :: p in img' ==> p in img || start <= p < page)
    && (forall p: nat :: start <= p < page ==> if p in img' then Permits(view[p], seg) else view[p] == Fault)
    && (forall p :: 0 <= p < PAGES && !(start <= p < page) ==> view[p] == view0[p])
  }

  lemma PagesStep(base: Base, w0: World, w: World, w': World, dir: nat, img: map<nat, nat>, img': map<nat, nat>,
        img'': map<nat, nat>, bytes: map<nat, Byte>, seg: Phdr, page: nat)
    requires PagesDone(base, w0, w, dir, img, img', bytes, seg, page) && StartPage(seg) <= page < PAGES
    requires Inv(w) && dir in w.spaces
    requires PageMapped(base, w, w', dir, img', img'', DroppedPages(bytes, StartPage(seg), page), page, seg)
    ensures PagesDone(base, w0, w', dir, img, img'', bytes, seg, page + 1) && forall p :: p in img' ==> p in img''
  {
    hide Inv, Loading, Views, StartPage;
    DropOneMore(bytes, StartPage(seg), page);
    ViewLength(base, w', dir, img'', DroppedPages(bytes, StartPage(seg), page + 1));
    PagesAreStep(Views(w0)[dir], Views(w)[dir], Views(w')[dir], img, img', img'', seg, page);
  }

  lemma ViewLength(base: Base, w: World, dir: nat, img: map<nat, nat>, bytes: map<nat, Byte>)
    requires Loading(base, w, dir, img, bytes)
    ensures Inv(w) && dir in w.spaces && |Views(w)[dir]| == PAGES
  {
  }

  lemma DropOneMore(bytes: map<nat, Byte>, start: nat, page: nat)
    requires start <= page
    ensures Dropped(DroppedPages(bytes, start, page), page) == DroppedPages(bytes, start, page + 1)
  {
  }

  lemma PagesAreStep(view0: seq<Translation>, view: seq<Translation>, view': seq<Translation>, img: map<nat, nat>,
        img': map<nat, nat>, img'': map<nat, nat>, seg: Phdr, page: nat)
    requires PagesAre(view0, view, img, img', seg, page) && StartPage(seg) <= page < PAGES && |view'| == PAGES
    requires page in img'' ==> img'' == img'[page := img''[page]] && Permits(view'[page], seg)
    requires page !in img'' ==> img'' == img' && view'[page] == Fault
    requires forall q :: 0 <= q < PAGES && q != page ==> view'[q] == view[q]
    ensures PagesAre(view0, view', img, img'', seg, page + 1) && forall p :: p in img' ==> p in img''
  {
  }

  lemma {:induction false} SlotsMore(start: nat, page: nat)
    requires start <= page
    ensures SlotsIn(start, page + 1) == SlotsIn(start, page) + {page / ENTRIES}
    decreases page - start
  {
    if start < page { SlotsMore(start + 1, page); }
  }

  /** The frames after the pages of a segment, if there were enough. */
  ghost predicate SegmentCost(w: World, w': World, dir: nat, start: nat, end: nat)
    requires WellFormed(w.store) && WellFormed(w'.store) && dir < MAX_PAGES
  {
    && FreeCount(w'.frames) == FreeCount(w.frames) - NeedPages(AbsentSlots(w, dir), start, end)
    && AbsentSlots(w', dir) == AbsentSlots(w, dir) - SlotsIn(start, end)
  }

  /** So far every page has been mapped, and what is still needed has become less by what was taken. */
  ghost predicate OnTrack(w: World, w': World, dir: nat, start: nat, page: nat, end: nat, img: map<nat, nat>)
    requires WellFormed(w.store) && WellFormed(w'.store) && dir < MAX_PAGES
  {
    && (forall p: nat :: start <= p < page ==> p in img)
    && AbsentSlots(w', dir) == AbsentSlots(w, dir) - SlotsIn(start, page)
    && FreeCount(w'.frames) - NeedPages(AbsentSlots(w', dir), page, end)
         == FreeCount(w.frames) - NeedPages(AbsentSlots(w, dir), start, end)
  }

  lemma StaysOnTrack(w0: World, w: World, w': World, dir: nat, start: nat, page: nat, end: nat, img: map<nat, nat>,
        img': map<nat, nat>)
    requires WellFormed(w0.store) && WellFormed(w.store) && WellFormed(w'.store) && dir < MAX_PAGES
    requires OnTrack(w0, w, dir, start, page, end, img) && start <= page < end && page in img'
    requires forall p :: p in img ==> p in img'
    requires PageCost(w, w', dir, page, true, NeedPage(AbsentSlots(w, dir), page))
    ensures OnTrack(w0, w', dir, start, page + 1, end, img')
  {
    SlotsMore(start, page);
    hide AbsentSlots, SlotsIn;
    assert AbsentSlots(w', dir) == AbsentSlots(w0, dir) - SlotsIn(start, page + 1);
  }

  /** There are frames enough for the segment. */
  ghost predicate Enough(w: World, dir: nat, seg: Phdr)
    requires WellFormed(w.store) && dir < MAX_PAGES
  {
    FreeCount(w.frames) >= NeedPages(AbsentSlots(w, dir), StartPage(seg), EndPage(seg))
  }

  /** The mapping loop at a page: on track, or out of frames. */
  ghost predicate Progress(base: Base, w0: World, w: World, dir: nat, seg: Phdr, img: map<nat, nat>,
        img': map<nat, nat>, bytes: map<nat, Byte>, page: nat)
  {
    var start, end := StartPage(seg), EndPage(seg);
    && start <= page <= end && PagesDone(base, w0, w, dir, img, img', bytes, seg, page)
    && WellFormed(w0.store) && WellFormed(w.store) && dir < MAX_PAGES
    && (|| OnTrack(w0, w, dir, start, page, end, img')
        || (FreeCount(w.frames) == 0 && page > start && page - 1 !in img' && !Enough(w0, dir, seg)))
  }

  lemma ProgressStart(base: Base, w: World, dir: nat, seg: Phdr, img: map<nat, nat>, bytes: map<nat, Byte>)
    requires Loading(base, w, dir, img, bytes) && StartPage(seg) <= EndPage(seg) <= PAGES
    ensures Progress(base, w, w, dir, seg, img, img, bytes, StartPage(seg))
    ensures DroppedPages(bytes, StartPage(seg), StartPage(seg)) == bytes
  {
    assert DroppedPages(bytes, StartPage(seg), StartPage(seg)) == bytes;
    assert SlotsIn(StartPage(seg), StartPage(seg)) == {};
  }

  lemma ProgressStep(base: Base, w0: World, w: World, w': World, dir: nat, seg: Phdr, img: map<nat, nat>,
        img': map<nat, nat>, img'': map<nat, nat>, bytes: map<nat, Byte>, page: nat)
    requires Progress(base, w0, w, dir, seg, img, img', bytes, page) && page < EndPage(seg) <= PAGES
    requires Inv(w) && dir in w.spaces && WellFormed(w'.store) && FreeCount(w.frames) > 0
    requires PageMapped(base, w, w', dir, img', img'', DroppedPages(bytes, StartPage(seg), page), page, seg)
    requires PageCost(w, w', dir, page, page in img'', NeedPage(AbsentSlots(w, dir), page))
    ensures Progress(base, w0, w', dir, seg, img, img'', bytes, page + 1)
  {
    hide Inv, PagesDone, PageMapped, AbsentSlots;
    PagesStep(base, w0, w, w', dir, img, img', img'', bytes, seg, page);
    if page in img'' { StaysOnTrack(w0, w, w', dir, StartPage(seg), page, EndPage(seg), img', img''); }
  }

  /** No frame for the next page: there were not enough. */
  lemma ProgressStops(base: Base, w0: World, w: World, dir: nat, seg: Phdr, img: map<nat, nat>, img': map<nat, nat>,
        bytes: map<nat, Byte>, page: nat)
    requires Progress(base, w0, w, dir, seg, img, img', bytes, page) && page < EndPage(seg) && FreeCount(w.frames) <= 0
    ensures !Enough(w0, dir, seg)
  {
  }

  lemma ProgressEnds(base: Base, w0: World, w: World, dir: nat, seg: Phdr, img: map<nat, nat>, img': map<nat, nat>,
        bytes: map<nat, Byte>)
    requires Progress(base, w0, w, dir, seg, img, img', bytes, EndPage(seg)) && FreeCount(w.frames) >= 0
    ensures if Enough(w0, dir, seg)
            then && (forall p: nat :: InPages(seg, p) ==> p in img')
                 && SegmentCost(w0, w, dir, StartPage(seg), EndPage(seg))
            else exists p: nat :: InPages(seg, p) && p !in img'
  {
    hide PagesDone, AbsentSlots;
    if !Enough(w0, dir, seg) { assert InPages(seg, EndPage(seg) - 1); }
  }

  /** Takes a frame for every page of the segment and maps it there; a failed map goes unnoticed. */
  method MapPages(vm: VirtualMemory, space: nat, seg: Phdr, ghost base: Base, ghost img: map<nat, nat>,
        ghost bytes: map<nat, Byte>)
    returns (ok: bool, ghost img': map<nat, nat>, ghost bytes': map<nat, Byte>)
    requires vm.Valid() && Live(vm.State(), space) && Loading(base, vm.State(), space / PAGE_SIZE, img, bytes)
    requires StartPage(seg) <= EndPage(seg) <= PAGES
    requires forall p: nat :: InPages(seg, p) ==> p / ENTRIES !in base.shared
    modifies vm`owner, vm.ram.words, vm.pmm, vm.pmm.bitmap
    ensures vm.Valid() && vm.spaces == old(vm.spaces) && space / PAGE_SIZE < MAX_PAGES
    ensures Loading(base, vm.State(), space / PAGE_SIZE, img', bytes')
    ensures ok ==>
              && bytes' == DroppedPages(bytes, StartPage(seg), EndPage(seg))
              && PagesDone(base, old(vm.State()), vm.State(), space / PAGE_SIZE, img, img', bytes, seg, EndPage(seg))
    ensures Enough(old(vm.State()), space / PAGE_SIZE, seg) ==>
              && ok && (forall p: nat :: InPages(seg, p) ==> p in img')
              && SegmentCost(old(vm.State()), vm.State(), space / PAGE_SIZE, StartPage(seg), EndPage(seg))
    ensures ok && !Enough(old(vm.State()), space / PAGE_SIZE, seg) ==> exists p: nat :: InPages(seg, p) && p !in img'
  {
    hide Inv, PageMapped, Loading, PageCost, Progress, Enough, SegmentCost, DroppedPages;
    var page, end := StartPage(seg), EndPage(seg);
    ghost var w0, dir := vm.State(), space / PAGE_SIZE;
    img', bytes' := img, bytes;
    ProgressStart(base, w0, dir, seg, img, bytes);
    while page < end
      invariant StartPage(seg) <= page <= end && vm.Valid() && vm.spaces == old(vm.spaces)
      invariant bytes' == DroppedPages(bytes, StartPage(seg), page)
      invariant Loading(base, vm.State(), dir, img', bytes')
      invariant Progress(base, w0, vm.State(), dir, seg, img, img', bytes, page)
    {
      assert InPages(seg, page);
      ghost var w, was := vm.State(), img';
      ok, img' := MapOnePage(vm, space, page, seg, base, img', bytes');
      if !ok {
        ProgressStops(base, w0, w, dir, seg, img, img', bytes, page);
        return;
      }
      ProgressStep(base, w0, w, vm.State(), dir, seg, img, was, img', bytes, page);
      page := page + 1;
      bytes' := DroppedPages(bytes, StartPage(seg), page);
      ProgressLoading(base, w0, vm.State(), dir, seg, img, img', bytes, page);
    }
    TakeCount(vm.pmm.frames);
    ProgressEnds(base, w0, vm.State(), dir, seg, img, img', bytes);
    ProgressLoading(base, w0, vm.State(), dir, seg, img, img', bytes, page);
    ok := true;
  }

  lemma ProgressLoading(base: Base, w0: World, w: World, dir: nat, seg: Phdr, img: map<nat, nat>, img': map<nat, nat>,
        bytes: map<nat, Byte>, page: nat)
    requires Progress(base, w0, w, dir, seg, img, img', bytes, page)
    ensures Loading(base, w, dir, img', DroppedPages(bytes, StartPage(seg), page))
    ensures PagesDone(base, w0, w, dir, img, img', bytes, seg, page)
  {
  }

  // ---------- The bytes of a segment ----------

  /** The first n bytes of the segment, on top of what had been written before. */
  ghost function Filled(was: map<nat, Byte>, file: seq<Byte>, seg: Phdr, n: nat): map<nat, Byte>
    requires seg.offset + seg.filesz <= |file|
  {
    if n == 0 then was else Filled(was, file, seg, n - 1)[seg.vaddr + (n - 1) := SegByte(file, seg, n - 1)]
  }

  lemma {:induction false} FilledIs(was: map<nat, Byte>, file: seq<Byte>, seg: Phdr, n: nat, a: nat)
    requires seg.offset + seg.filesz <= |file|
    ensures var bytes, here := Filled(was, file, seg, n), seg.vaddr <= a < seg.vaddr + n;
            && (a in bytes <==> here || a in was)
            && (a in bytes ==> bytes[a] == if here then SegByte(file, seg, a - seg.vaddr) else was[a])
  {
    if n > 0 { FilledIs(was, file, seg, n - 1, a); }
  }

  /** All pages of the segment are backed or absent, and it does not run past 4 GB. */
  ghost predicate Ready(view: seq<Translation>, img: map<nat, nat>, seg: Phdr) {
    && |view| == PAGES && seg.vaddr + seg.memsz < 0x1_0000_0000
    && forall p: nat :: InPages(seg, p) ==> p < PAGES && (p in img || view[p] == Fault)
  }

  /** Stores byte n of the segment at its place. */
  method PutSegByte(vm: VirtualMemory, space: nat, seg: Phdr, n: nat, b: Byte, ghost base: Base,
        ghost img: map<nat, nat>, ghost bytes: map<nat, Byte>)
    returns (ok: bool)
    requires n < seg.memsz
    requires vm.Valid() && Live(vm.State(), space) && Loading(base, vm.State(), space / PAGE_SIZE, img, bytes)
    requires Ready(Views(vm.State())[space / PAGE_SIZE], img, seg)
    modifies vm.ram.words
    ensures vm.Valid() && Same(old(vm.State()), vm.State(), space / PAGE_SIZE)
    ensures Loading(base, vm.State(), space / PAGE_SIZE, img, if ok then bytes[seg.vaddr + n := b] else bytes)
    ensures (forall p: nat :: InPages(seg, p) ==> p in img) ==> ok
  {
    hide Loading, Inv, Same;
    AddressInPages(seg, seg.vaddr + n);
    ok := WriteByte(vm, space, seg.vaddr + n, b, base, img, bytes);
  }

  /** Copies the bytes that the file has for the segment to their addresses. */
  method CopyBytes(vm: VirtualMemory, space: nat, seg: Phdr, file: seq<Byte>, ghost base: Base,
        ghost img: map<nat, nat>, ghost was: map<nat, Byte>)
    returns (ok: bool, ghost bytes: map<nat, Byte>)
    requires seg.offset + seg.filesz <= |file| && seg.filesz <= seg.memsz
    requires vm.Valid() && Live(vm.State(), space) && Loading(base, vm.State(), space / PAGE_SIZE, img, was)
    requires Ready(Views(vm.State())[space / PAGE_SIZE], img, seg)
    modifies vm.ram.words
    ensures vm.Valid() && Same(old(vm.State()), vm.State(), space / PAGE_SIZE)
    ensures Loading(base, vm.State(), space / PAGE_SIZE, img, bytes)
    ensures ok ==> bytes == Filled(was, file, seg, seg.filesz)
    ensures (forall p: nat :: InPages(seg, p) ==> p in img) ==> ok
  {
    hide Loading, Inv, AbsentSlots;
    bytes := was;
    SameStart(vm.State(), space / PAGE_SIZE);
    var j := 0;
    while j < seg.filesz
      invariant 0 <= j <= seg.filesz && vm.Valid() && Same(old(vm.State()), vm.State(), space / PAGE_SIZE)
      invariant Loading(base, vm.State(), space / PAGE_SIZE, img, bytes) && bytes == Filled(was, file, seg, j)
    {
      var b := file[seg.offset + j];
      ok := PutSegByte(vm, space, seg, j, b, base, img, bytes);
      if !ok {
        return;
      }
      bytes := bytes[seg.vaddr + j := b];
      j := j + 1;
    }
    ok := true;
  }

  /** Clears the part of the segment that the file does not cover. */
  method ZeroBytes(vm: VirtualMemory, space: nat, seg: Phdr, ghost file: seq<Byte>, ghost base: Base,
        ghost img: map<nat, nat>, ghost was: map<nat, Byte>)
    returns (ok: bool, ghost bytes: map<nat, Byte>)
    requires seg.offset + seg.filesz <= |file| && seg.filesz <= seg.memsz
    requires vm.Valid() && Live(vm.State(), space)
    requires Loading(base, vm.State(), space / PAGE_SIZE, img, Filled(was, file, seg, seg.filesz))
    requires Ready(Views(vm.State())[space / PAGE_SIZE], img, seg)
    modifies vm.ram.words
    ensures vm.Valid() && Same(old(vm.State()), vm.State(), space / PAGE_SIZE)
    ensures Loading(base, vm.State(), space / PAGE_SIZE, img, bytes)
    ensures ok ==> bytes == Filled(was, file, seg, seg.memsz)
    ensures (forall p: nat :: InPages(seg, p) ==> p in img) ==> ok
  {
    hide Loading, Inv, AbsentSlots;
    bytes := Filled(was, file, seg, seg.filesz);
    SameStart(vm.State(), space / PAGE_SIZE);
    var j, zeroSize := 0, seg.memsz - seg.filesz;
    while j < zeroSize
      invariant 0 <= j <= zeroSize && vm.Valid() && Same(old(vm.State()), vm.State(), space / PAGE_SIZE)
      invariant Loading(base, vm.State(), space / PAGE_SIZE, img, bytes)
      invariant bytes == Filled(was, file, seg, seg.filesz + j)
    {
      ok := PutSegByte(vm, space, seg, seg.filesz + j, 0, base, img, bytes);
      if !ok {
        return;
      }
      bytes := bytes[seg.vaddr + (seg.filesz + j) := 0];
      j := j + 1;
    }
    ok := true;
  }

  // ---------- One segment ----------

  /** The segment is loaded: its pages are backed or absent, and its bytes are written over what was dropped there. */
  ghost predicate SegmentDone(w0: World, w: World, dir: nat, img: map<nat, nat>, img': map<nat, nat>,
        bytes: map<nat, Byte>, bytes': map<nat, Byte>, file: seq<Byte>, seg: Phdr)
    requires seg.offset + seg.filesz <= |file|
  {
    && Inv(w0) && Inv(w) && dir in w0.spaces && dir in w.spaces
    && PagesAre(Views(w0)[dir], Views(w)[dir], img, img', seg, EndPage(seg))
    && bytes' == Filled(DroppedPages(bytes, StartPage(seg), EndPage(seg)), file, seg, seg.memsz)
  }

  /** One PT_LOAD segment: map, copy, zero. */
  method LoadSegment(vm: VirtualMemory, space: nat, seg: Phdr, file: seq<Byte>, ghost base: Base,
        ghost img: map<nat, nat>, ghost bytes: map<nat, Byte>)
    returns (out: Outcome, ghost img': map<nat, nat>, ghost bytes': map<nat, Byte>)
    requires vm.Valid() && Live(vm.State(), space) && Loading(base, vm.State(), space / PAGE_SIZE, img, bytes)
    requires Loadable(base, file, seg)
    modifies vm`owner, vm.ram.words, vm.pmm, vm.pmm.bitmap
    ensures vm.Valid() && vm.spaces == old(vm.spaces) && space / PAGE_SIZE < MAX_PAGES
    ensures Loading(base, vm.State(), space / PAGE_SIZE, img', bytes')
    ensures out.Loaded? ==>
              SegmentDone(old(vm.State()), vm.State(), space / PAGE_SIZE, img, img', bytes, bytes', file, seg)
    ensures Enough(old(vm.State()), space / PAGE_SIZE, seg) ==>
              out.Loaded? && SegmentCost(old(vm.State()), vm.State(), space / PAGE_SIZE, StartPage(seg), EndPage(seg))
    ensures out.Loaded? && seg.memsz > 0 ==> Enough(old(vm.State()), space / PAGE_SIZE, seg)
  {
    hide Loading, Inv, Enough, SegmentCost, PagesDone, Filled, AbsentSlots;
    ghost var w0, dir := vm.State(), space / PAGE_SIZE;
    var ok;
    PagesInRange(seg);
    ok, img', bytes' := MapPages(vm, space, seg, base, img, bytes);
    if !ok {
      return Failed, img', bytes';
    }
    ghost var w, was := vm.State(), bytes';
    ReadyToFill(base, w0, w, dir, seg, img, img', bytes);
    ok, bytes' := CopyBytes(vm, space, seg, file, base, img', was);
    if !ok {
      return Faulted, img', bytes';
    }
    ok, bytes' := ZeroBytes(vm, space, seg, file, base, img', was);
    CostKept(w0, w, vm.State(), dir, StartPage(seg), EndPage(seg));
    if ok { AllBacked(base, vm.State(), dir, img', was, file, seg); }
    return if ok then Loaded else Faulted, img', bytes';
  }

  lemma PagesInRange(seg: Phdr)
    requires seg.vaddr + seg.memsz + 0xFFF < 0x1_0000_0000
    ensures StartPage(seg) <= EndPage(seg) <= PAGES
  {
  }

  lemma ReadyToFill(base: Base, w0: World, w: World, dir: nat, seg: Phdr, img: map<nat, nat>, img': map<nat, nat>,
        bytes: map<nat, Byte>)
    requires PagesDone(base, w0, w, dir, img, img', bytes, seg, EndPage(seg))
    requires seg.vaddr + seg.memsz < 0x1_0000_0000
    ensures Inv(w0) && Inv(w) && dir in w.spaces && dir in w0.spaces && Ready(Views(w)[dir], img', seg)
    ensures PagesAre(Views(w0)[dir], Views(w)[dir], img, img', seg, EndPage(seg))
  {
  }

  lemma CostKept(w0: World, w: World, w': World, dir: nat, start: nat, end: nat)
    requires WellFormed(w0.store) && WellFormed(w.store) && WellFormed(w'.store) && dir < MAX_PAGES
    requires w'.frames == w.frames && AbsentSlots(w', dir) == AbsentSlots(w, dir)
    ensures SegmentCost(w0, w, dir, start, end) ==> SegmentCost(w0, w', dir, start, end)
  {
    hide AbsentSlots;
  }

  /** When all bytes of a segment that is not empty are written, all its pages are backed. */
  lemma AllBacked(base: Base, w: World, dir: nat, img: map<nat, nat>, was: map<nat, Byte>, file: seq<Byte>, seg: Phdr)
    requires seg.offset + seg.filesz <= |file| && Loading(base, w, dir, img, Filled(was, file, seg, seg.memsz))
    ensures seg.memsz > 0 ==> forall p: nat :: InPages(seg, p) ==> p in img
  {
    if seg.memsz > 0 {
      forall p: nat | InPages(seg, p) ensures p in img {
        var a := PageHasByte(seg, p);
        FilledIs(was, file, seg, seg.memsz, a);
        assert a in Filled(was, file, seg, seg.memsz);
      }
    }
  }

  // ---------- Which segment decides ----------

  /** The last of the first i headers that is loaded and has this page, or -1. */
  function LastWith(segs: seq<Phdr>, i: nat, p: nat): (k: int)
    requires i <= |segs|
    ensures -1 <= k < i && (k >= 0 ==> IsLoad(segs[k]) && InPages(segs[k], p))
    ensures forall j :: k < j < i && IsLoad(segs[j]) ==> !InPages(segs[j], p)
  {
    if i == 0 then -1 else if IsLoad(segs[i - 1]) && InPages(segs[i - 1], p) then i - 1 else LastWith(segs, i - 1, p)
  }

  ghost predicate Acceptable(base: Base, file: ElfFile) {
    forall k :: 0 <= k < |file.phdrs| && IsLoad(file.phdrs[k]) ==> Loadable(base, file.bytes, file.phdrs[k])
  }

  predicate GoodHeader(file: ElfFile) {
    file.magic == ELF_MAGIC && file.cls == 1 && file.data == 1 && file.machine == 3 && file.kind == 2
  }

  /**
    A page of none of the first i segments is as it was; any other is backed, with the permissions of the last segment
    that has it, unless that one is empty.
   */
  ghost predicate PageUpTo(view0: seq<Translation>, view: seq<Translation>, img: map<nat, nat>, segs: seq<Phdr>, i: nat,
        p: nat)
    requires i <= |segs| && p < |view0| && p < |view|
  {
    var k := LastWith(segs, i, p);
    if k == -1 then p !in img && view[p] == view0[p]
    else if p in img then Permits(view[p], segs[k])
    else view[p] == Fault && segs[k].memsz == 0
  }

  /** An address has been written exactly if it lies in the segment that decides, with that segment's byte. */
  ghost predicate ByteUpTo(bytes: map<nat, Byte>, file: ElfFile, i: nat, a: nat)
    requires i <= |file.phdrs|
    requires forall k :: 0 <= k < |file.phdrs| && IsLoad(file.phdrs[k]) ==>
               file.phdrs[k].offset + file.phdrs[k].filesz <= |file.bytes|
  {
    var k := LastWith(file.phdrs, i, a / PAGE_SIZE);
    if k == -1 then a !in bytes
    else && (a in bytes <==> InSegment(file.phdrs[k], a))
         && (a in bytes ==> bytes[a] == SegByte(file.bytes, file.phdrs[k], a - file.phdrs[k].vaddr))
  }

  ghost predicate LoadedUpTo(base: Base, w: World, dir: nat, img: map<nat, nat>, bytes: map<nat, Byte>, file: ElfFile,
        i: nat)
    requires Acceptable(base, file) && i <= |file.phdrs| && Inv(w) && dir in w.spaces
  {
    && dir in base.views && |base.views[dir]| == PAGES
    && (forall p: nat {:trigger PageUpTo(base.views[dir], Views(w)[dir], img, file.phdrs, i, p)} ::
          p < PAGES ==> PageUpTo(base.views[dir], Views(w)[dir], img, file.phdrs, i, p))
    && (forall a: nat {:trigger ByteUpTo(bytes, file, i, a)} :: a < 0x1_0000_0000 ==> ByteUpTo(bytes, file, i, a))
  }

  lemma PageOneMore(view0: seq<Translation>, was: seq<Translation>, view: seq<Translation>, img: map<nat, nat>,
        img': map<nat, nat>, segs: seq<Phdr>, i: nat, p: nat)
    requires i < |segs| && IsLoad(segs[i]) && |view0| == |was| == |view| == PAGES && p < PAGES
    requires PagesAre(was, view, img, img', segs[i], EndPage(segs[i]))
    requires PageUpTo(view0, was, img, segs, i, p) && (segs[i].memsz > 0 && InPages(segs[i], p) ==> p in img')
    ensures PageUpTo(view0, view, img', segs, i + 1, p)
  {
  }

  lemma ByteOneMore(bytes: map<nat, Byte>, file: ElfFile, i: nat, a: nat)
    requires i < |file.phdrs| && IsLoad(file.phdrs[i])
    requires forall k :: 0 <= k < |file.phdrs| && IsLoad(file.phdrs[k]) ==>
               file.phdrs[k].offset + file.phdrs[k].filesz <= |file.bytes|
    requires ByteUpTo(bytes, file, i, a)
    ensures var seg := file.phdrs[i];
            ByteUpTo(Filled(DroppedPages(bytes, StartPage(seg), EndPage(seg)), file.bytes, seg, seg.memsz),
                     file, i + 1, a)
  {
    var seg := file.phdrs[i];
    FilledIs(DroppedPages(bytes, StartPage(seg), EndPage(seg)), file.bytes, seg, seg.memsz, a);
    if InSegment(seg, a) { AddressInPages(seg, a); }
  }

  lemma LoadedOneMore(base: Base, w0: World, w: World, dir: nat, img: map<nat, nat>, img': map<nat, nat>,
        bytes: map<nat, Byte>, bytes': map<nat, Byte>, file: ElfFile, i: nat)
    requires Acceptable(base, file) && i < |file.phdrs| && IsLoad(file.phdrs[i]) && Inv(w0) && dir in w0.spaces
    requires LoadedUpTo(base, w0, dir, img, bytes, file, i) && Loading(base, w, dir, img', bytes')
    requires SegmentDone(w0, w, dir, img, img', bytes, bytes', file.bytes, file.phdrs[i])
    ensures LoadedUpTo(base, w, dir, img', bytes', file, i + 1)
  {
    var seg := file.phdrs[i];
    AllBacked(base, w, dir, img', DroppedPages(bytes, StartPage(seg), EndPage(seg)), file.bytes, seg);
    hide Inv, Loading, Filled, PagesAre, ByteUpTo, PageUpTo;
    var next := i + 1;
    forall p: nat | p < PAGES ensures PageUpTo(base.views[dir], Views(w)[dir], img', file.phdrs, next, p) {
      assert PageUpTo(base.views[dir], Views(w0)[dir], img, file.phdrs, i, p);
      PageOneMore(base.views[dir], Views(w0)[dir], Views(w)[dir], img, img', file.phdrs, i, p);
    }
    forall a: nat | a < 0x1_0000_0000 ensures ByteUpTo(bytes', file, next, a) {
      assert ByteUpTo(bytes, file, i, a);
      ByteOneMore(bytes, file, i, a);
    }
  }

  lemma NotALoad(base: Base, w: World, dir: nat, img: map<nat, nat>, bytes: map<nat, Byte>, file: ElfFile, i: nat)
    requires Acceptable(base, file) && i < |file.phdrs| && !IsLoad(file.phdrs[i]) && Inv(w) && dir in w.spaces
    requires LoadedUpTo(base, w, dir, img, bytes, file, i)
    ensures LoadedUpTo(base, w, dir, img, bytes, file, i + 1)
  {
    hide Inv;
    var next := i + 1;
    forall p: nat | p < PAGES ensures PageUpTo(base.views[dir], Views(w)[dir], img, file.phdrs, next, p) {
      assert PageUpTo(base.views[dir], Views(w)[dir], img, file.phdrs, i, p);
    }
    forall a: nat | a < 0x1_0000_0000 ensures ByteUpTo(bytes, file, next, a) {
      assert ByteUpTo(bytes, file, i, a);
    }
  }

  // ---------- load_addr and size ----------

  function Book(info: ElfInfo, s: Phdr): ElfInfo
    requires s.vaddr + s.memsz < 0x1_0000_0000
  {
    var load := if s.vaddr < info.loadAddr then s.vaddr else info.loadAddr;
    var size := if s.vaddr + s.memsz > info.size then s.vaddr + s.memsz - load else info.size;
    ElfInfo(info.entry, load, size)
  }

  /** The bookkeeping after the first n program headers. */
  function Booked(entry: Word, segs: seq<Phdr>, n: nat): ElfInfo
    requires n <= |segs|
    requires forall k :: 0 <= k < |segs| && IsLoad(segs[k]) ==> segs[k].vaddr + segs[k].memsz < 0x1_0000_0000
  {
    if n == 0 then ElfInfo(entry, 0xFFFFFFFF, 0)
    else if IsLoad(segs[n - 1]) then Book(Booked(entry, segs, n - 1), segs[n - 1])
    else Booked(entry, segs, n - 1)
  }

  /** The lowest address and the highest end of the first n segments that are loaded. */
  function LowestAddr(segs: seq<Phdr>, n: nat): nat
    requires n <= |segs|
  {
    if n == 0 then 0xFFFFFFFF
    else if IsLoad(segs[n - 1]) && segs[n - 1].vaddr < LowestAddr(segs, n - 1) then segs[n - 1].vaddr
    else LowestAddr(segs, n - 1)
  }

  function HighestEnd(segs: seq<Phdr>, n: nat): nat
    requires n <= |segs|
  {
    if n == 0 then 0
    else if IsLoad(segs[n - 1]) && segs[n - 1].vaddr + segs[n - 1].memsz > HighestEnd(segs, n - 1)
    then segs[n - 1].vaddr + segs[n - 1].memsz
    else HighestEnd(segs, n - 1)
  }

  ghost predicate NoWrap(segs: seq<Phdr>) {
    forall k :: 0 <= k < |segs| && IsLoad(segs[k]) ==> segs[k].vaddr + segs[k].memsz < 0x1_0000_0000
  }

  /** load_addr is the lowest address in any order; size never exceeds the extent. */
  lemma {:induction false} BookedBounds(entry: Word, segs: seq<Phdr>, n: nat)
    requires NoWrap(segs) && n <= |segs|
    ensures Booked(entry, segs, n).entry == entry && Booked(entry, segs, n).loadAddr == LowestAddr(segs, n)
    ensures Booked(entry, segs, n).size == 0 || Booked(entry, segs, n).size <= HighestEnd(segs, n) - LowestAddr(segs, n)
    ensures forall k :: 0 <= k < n && IsLoad(segs[k]) ==>
              LowestAddr(segs, n) <= segs[k].vaddr && segs[k].vaddr + segs[k].memsz <= HighestEnd(segs, n)
  {
    if n > 0 {
      BookedBounds(entry, segs, n - 1);
    }
  }

  /** size is the extent whenever no segment ends above the last one that is loaded, as in ascending order. */
  lemma BookedExtent(entry: Word, segs: seq<Phdr>, n: nat)
    requires NoWrap(segs) && 0 < n <= |segs| && IsLoad(segs[n - 1])
    requires segs[n - 1].vaddr + segs[n - 1].memsz == HighestEnd(segs, n)
    ensures Booked(entry, segs, n).size == HighestEnd(segs, n) - LowestAddr(segs, n)
  {
    BookedBounds(entry, segs, n - 1);
    BookedBounds(entry, segs, n);
  }

  /** Segment m fixes the size: it ends highest, all lower addresses are known by then, and no later one resets it. */
  ghost predicate Decides(segs: seq<Phdr>, n: nat, m: int)
    requires n <= |segs|
  {
    var high, low := HighestEnd(segs, n), LowestAddr(segs, n);
    && 0 <= m < n && IsLoad(segs[m]) && segs[m].vaddr + segs[m].memsz == high && LowestAddr(segs, m + 1) == low
    && forall k :: m < k < n && IsLoad(segs[k]) ==>
         segs[k].vaddr + segs[k].memsz == high || segs[k].vaddr + segs[k].memsz <= high - low
  }

  /** In whatever order the segments come, size is the extent exactly when one of them decides it. */
  lemma {:induction false} BookedExact(entry: Word, segs: seq<Phdr>, n: nat)
    requires NoWrap(segs) && n <= |segs| && HighestEnd(segs, n) > LowestAddr(segs, n)
    ensures Booked(entry, segs, n).size == HighestEnd(segs, n) - LowestAddr(segs, n) <==>
            exists m :: Decides(segs, n, m)
  {
    var high, low := HighestEnd(segs, n), LowestAddr(segs, n);
    var n' := n - 1;
    var s, size' := segs[n'], Booked(entry, segs, n').size;
    var end := s.vaddr + s.memsz;
    BookedBounds(entry, segs, n - 1);
    BookedBounds(entry, segs, n);
    var same := HighestEnd(segs, n - 1) == high && LowestAddr(segs, n - 1) == low;
    if same { BookedExact(entry, segs, n - 1); }
    forall m | Decides(segs, n, m) && m < n - 1 ensures same && Decides(segs, n', m) { DecidesBefore(segs, n, m); }
    if !IsLoad(s) {
      if m :| Decides(segs, n', m) { assert Decides(segs, n, m); }
    } else if end > size' {
      if end == high { assert Decides(segs, n, n - 1); }
    } else if same {
      if m :| Decides(segs, n', m) && size' == high - low { assert Decides(segs, n, m); }
    }
  }

  lemma {:induction false} LowestFalls(segs: seq<Phdr>, m: nat, n: nat)
    requires m <= n <= |segs|
    ensures LowestAddr(segs, n) <= LowestAddr(segs, m) && HighestEnd(segs, m) <= HighestEnd(segs, n)
    decreases n - m
  {
    if m < n { LowestFalls(segs, m, n - 1); }
  }

  lemma DecidesBefore(segs: seq<Phdr>, n: nat, m: nat)
    requires 0 < n <= |segs| && Decides(segs, n, m) && m < n - 1
    ensures HighestEnd(segs, n - 1) == HighestEnd(segs, n) && LowestAddr(segs, n - 1) == LowestAddr(segs, n)
    ensures Decides(segs, n - 1, m)
  {
    LowestFalls(segs, m + 1, n - 1);
    LowestFalls(segs, n - 1, n);
  }

  /** Two pages, the higher one first: size is one page, although the image extends over 257. */
  lemma OutOfOrderExample(entry: Word)
    ensures var segs := [Phdr(PT_LOAD, 0, 0x500000, 0, 0x1000, 0), Phdr(PT_LOAD, 0, 0x400000, 0, 0x1000, 0)];
            && NoWrap(segs) && HighestEnd(segs, 2) - LowestAddr(segs, 2) == 0x101000
            && Booked(entry, segs, 2).loadAddr == 0x400000 && Booked(entry, segs, 2).size == 0x1000
  {
    var segs := [Phdr(PT_LOAD, 0, 0x500000, 0, 0x1000, 0), Phdr(PT_LOAD, 0, 0x400000, 0, 0x1000, 0)];
    assert LowestAddr(segs, 0) == 0xFFFFFFFF && HighestEnd(segs, 0) == 0;
    assert LowestAddr(segs, 1) == 0x500000;
    assert HighestEnd(segs, 1) == 0x501000;
    assert Booked(entry, segs, 1).size == 0x1000 && Booked(entry, segs, 1).loadAddr == 0x500000;
  }

  ghost predicate Ascending(segs: seq<Phdr>) {
    forall k, l :: 0 <= k < l < |segs| && IsLoad(segs[k]) && IsLoad(segs[l]) ==>
      segs[k].vaddr + segs[k].memsz <= segs[l].vaddr
  }

  lemma {:induction false} AscendingExtent(entry: Word, segs: seq<Phdr>, n: nat)
    requires NoWrap(segs) && Ascending(segs) && n <= |segs|
    requires exists k :: 0 <= k < n && IsLoad(segs[k])
    ensures Booked(entry, segs, n).loadAddr == LowestAddr(segs, n)
    ensures Booked(entry, segs, n).size == HighestEnd(segs, n) - LowestAddr(segs, n)
  {
    BookedBounds(entry, segs, n);
    if IsLoad(segs[n - 1]) {
      EndsBelow(segs, n - 1, segs[n - 1].vaddr);
      BookedExtent(entry, segs, n);
    } else {
      AscendingExtent(entry, segs, n - 1);
    }
  }

  lemma {:induction false} EndsBelow(segs: seq<Phdr>, n: nat, bound: nat)
    requires n <= |segs| && forall k :: 0 <= k < n && IsLoad(segs[k]) ==> segs[k].vaddr + segs[k].memsz <= bound
    ensures HighestEnd(segs, n) <= bound
  {
    if n > 0 {
      EndsBelow(segs, n - 1, bound);
    }
  }

  // ---------- elf_load_into ----------

  /** Every address of the segment shows the byte the file promises. */
  ghost predicate Visible(store: Store, dir: nat, file: seq<Byte>, s: Phdr)
    requires WellFormed(store) && dir < MAX_PAGES && s.offset + s.filesz <= |file| && s.vaddr + s.memsz < 0x1_0000_0000
  {
    forall a: nat {:trigger ByteAt(store, dir, a)} ::
      InSegment(s, a) ==> ByteAt(store, dir, a) == SegByte(file, s, a - s.vaddr)
  }

  /**
    What an address shows after a load. A page of no segment is as it was. On any other page the last segment that
    has it decides: the page has its permissions, its addresses show its bytes, and the rest of the page shows what the
    frame, which was free, held before the load. The page can be absent only if that segment is empty.
   */
  ghost predicate ShownAt(w: World, w': World, dir: nat, file: ElfFile, a: nat)
    requires Inv(w) && Inv(w') && dir in w.spaces && dir in w'.spaces && a < 0x1_0000_0000
    requires forall k :: 0 <= k < |file.phdrs| && IsLoad(file.phdrs[k]) ==>
               file.phdrs[k].offset + file.phdrs[k].filesz <= |file.bytes|
  {
    var p := a / PAGE_SIZE;
    var k, t := LastWith(file.phdrs, |file.phdrs|, p), Walk(w'.store, dir, p);
    if k == -1 then t == Walk(w.store, dir, p)
    else if InSegment(file.phdrs[k], a) then
      && Permits(t, file.phdrs[k])
      && ByteAt(w'.store, dir, a) == SegByte(file.bytes, file.phdrs[k], a - file.phdrs[k].vaddr)
    else if t == Fault then file.phdrs[k].memsz == 0
    else && Permits(t, file.phdrs[k]) && t.frame < MAX_PAGES && t.frame < w.frames.total && t.frame !in w.frames.held
         && ByteAt(w'.store, dir, a) == FrameByte(w.store, t.frame, a)
  }

  lemma LoadedShows(w: World, w': World, dir: nat, img: map<nat, nat>, bytes: map<nat, Byte>, file: ElfFile, a: nat)
    requires Inv(w) && Acceptable(BaseOf(w), file) && Loading(BaseOf(w), w', dir, img, bytes) && a < 0x1_0000_0000
    requires LoadedUpTo(BaseOf(w), w', dir, img, bytes, file, |file.phdrs|)
    ensures dir in w.spaces && ShownAt(w, w', dir, file, a)
  {
    var p, n := a / PAGE_SIZE, |file.phdrs|;
    assert PageUpTo(BaseOf(w).views[dir], Views(w')[dir], img, file.phdrs, n, p) && ByteUpTo(bytes, file, n, a);
    ViewsAre(w, w', dir, img, bytes, p);
    hide Inv, Views, Loading, LoadedUpTo, Walk, FrameByte, ByteAt, SegByte;
    if p in img { ImageShows(w, w', dir, img, bytes, a); }
  }

  /** The permissions of a page are those of the last segment that has it. */
  ghost predicate PermittedAt(store: Store, dir: nat, segs: seq<Phdr>, p: nat)
    requires WellFormed(store) && dir < MAX_PAGES && p < PAGES
  {
    var k, t := LastWith(segs, |segs|, p), Walk(store, dir, p);
    k != -1 && segs[k].memsz > 0 ==> t.To? && t.user && (t.writable <==> segs[k].flags / 2 % 2 == 1)
  }

  lemma PagesArePermitted(w: World, w': World, dir: nat, file: ElfFile, p: nat)
    requires Inv(w) && Inv(w') && dir in w.spaces && dir in w'.spaces && Acceptable(BaseOf(w), file) && p < PAGES
    requires forall a: nat :: a < 0x1_0000_0000 ==> ShownAt(w, w', dir, file, a)
    ensures dir < MAX_PAGES && PermittedAt(w'.store, dir, file.phdrs, p)
  {
    Sizes(w', dir);
    var k := LastWith(file.phdrs, |file.phdrs|, p);
    if k != -1 && file.phdrs[k].memsz > 0 {
      var a := PageHasByte(file.phdrs[k], p);
      assert Loadable(BaseOf(w), file.bytes, file.phdrs[k]);
      hide Inv, Walk, ByteAt, BaseOf;
      assert ShownAt(w, w', dir, file, a);
    }
  }

  lemma ViewsAre(w: World, w': World, dir: nat, img: map<nat, nat>, bytes: map<nat, Byte>, p: nat)
    requires Inv(w) && Loading(BaseOf(w), w', dir, img, bytes) && p < PAGES
    ensures Inv(w') && dir in w.spaces && dir in w'.spaces && dir in BaseOf(w).views
    ensures Views(w')[dir][p] == Walk(w'.store, dir, p) && BaseOf(w).views[dir][p] == Walk(w.store, dir, p)
  {
    hide Image, Shows, Untouched;
  }

  lemma ImageShows(w: World, w': World, dir: nat, img: map<nat, nat>, bytes: map<nat, Byte>, a: nat)
    requires Inv(w) && Loading(BaseOf(w), w', dir, img, bytes) && a < 0x1_0000_0000 && a / PAGE_SIZE in img
    ensures Inv(w') && dir in w'.spaces
    ensures var t := Walk(w'.store, dir, a / PAGE_SIZE);
            && t.To? && t.frame < MAX_PAGES && t.frame < w.frames.total && t.frame !in w.frames.held
            && ByteAt(w'.store, dir, a) == if a in bytes then bytes[a] else FrameByte(w.store, t.frame, a)
  {
    var p := a / PAGE_SIZE;
    assert ShowsAt(w.store, w', dir, img, bytes, a);
    assert Views(w')[dir][p] == Walk(w'.store, dir, p);
    hide Inv, Walk, ByteAt, FrameByte;
  }

  /** A segment whose pages no later one has is shown completely. */
  lemma LastIsVisible(w: World, w': World, dir: nat, file: ElfFile, k: nat)
    requires Inv(w) && Inv(w') && dir in w.spaces && dir in w'.spaces && Acceptable(BaseOf(w), file)
    requires forall a: nat :: a < 0x1_0000_0000 ==> ShownAt(w, w', dir, file, a)
    requires k < |file.phdrs| && IsLoad(file.phdrs[k])
    requires forall p: nat :: InPages(file.phdrs[k], p) ==> LastWith(file.phdrs, |file.phdrs|, p) == k
    ensures dir < MAX_PAGES && Visible(w'.store, dir, file.bytes, file.phdrs[k])
  {
    var seg := file.phdrs[k];
    assert Loadable(BaseOf(w), file.bytes, seg);
    hide Inv, Walk, ByteAt, BaseOf;
    assert WellFormed(w'.store) && dir < MAX_PAGES by { Sizes(w', dir); }
    forall a: nat | InSegment(seg, a) ensures ByteAt(w'.store, dir, a) == SegByte(file.bytes, seg, a - seg.vaddr) {
      AddressInPages(seg, a);
      assert ShownAt(w, w', dir, file, a);
    }
  }

  lemma Sizes(w: World, dir: nat)
    requires Inv(w) && dir in w.spaces
    ensures WellFormed(w.store) && dir < MAX_PAGES
  {
  }

  /**
    What becomes of an address of segment j on a page that a later segment k has as well: it shows k's byte if k has
    the address, and otherwise what the frame that was mapped for k held before.
   */
  lemma SharedPageIsLost(w: World, w': World, dir: nat, file: ElfFile, j: nat, a: nat)
    requires Inv(w) && Inv(w') && dir in w.spaces && dir in w'.spaces && Acceptable(BaseOf(w), file)
    requires j < |file.phdrs| && IsLoad(file.phdrs[j]) && InSegment(file.phdrs[j], a) && a < 0x1_0000_0000
    requires ShownAt(w, w', dir, file, a) && j < LastWith(file.phdrs, |file.phdrs|, a / PAGE_SIZE)
    requires file.phdrs[LastWith(file.phdrs, |file.phdrs|, a / PAGE_SIZE)].memsz > 0
    ensures dir < MAX_PAGES
    ensures var k, t := LastWith(file.phdrs, |file.phdrs|, a / PAGE_SIZE), Walk(w'.store, dir, a / PAGE_SIZE);
            var there := if InSegment(file.phdrs[k], a) then SegByte(file.bytes, file.phdrs[k], a - file.phdrs[k].vaddr)
                         else if t.To? && t.frame < MAX_PAGES then FrameByte(w.store, t.frame, a) else 256;
            ByteAt(w'.store, dir, a) == there < 256
  {
    Sizes(w', dir);
    hide Inv, ByteAt, FrameByte, Walk;
  }

  /** No segment has pages without bytes. */
  predicate AllSized(segs: seq<Phdr>) {
    forall k :: 0 <= k < |segs| && IsLoad(segs[k]) ==> segs[k].memsz > 0 || StartPage(segs[k]) == EndPage(segs[k])
  }

  /** As long as all is well, what is still needed has become less by what was taken. */
  ghost predicate Balance(w0: World, w: World, dir: nat, segs: seq<Phdr>, i: nat)
    requires WellFormed(w0.store) && WellFormed(w.store) && dir < MAX_PAGES && i <= |segs|
  {
    FreeCount(w.frames) - NeedFor(AbsentSlots(w, dir), segs, i)
      == FreeCount(w0.frames) - NeedFor(AbsentSlots(w0, dir), segs, 0)
  }

  ghost predicate EnoughForAll(w: World, dir: nat, segs: seq<Phdr>)
    requires WellFormed(w.store) && dir < MAX_PAGES
  {
    FreeCount(w.frames) >= NeedFor(AbsentSlots(w, dir), segs, 0)
  }

  lemma BalanceStep(w0: World, w: World, w': World, dir: nat, segs: seq<Phdr>, i: nat)
    requires WellFormed(w0.store) && WellFormed(w.store) && WellFormed(w'.store) && dir < MAX_PAGES && i < |segs|
    requires Balance(w0, w, dir, segs, i) && IsLoad(segs[i])
    ensures !Enough(w, dir, segs[i]) ==> !EnoughForAll(w0, dir, segs)
    ensures SegmentCost(w, w', dir, StartPage(segs[i]), EndPage(segs[i])) ==> Balance(w0, w', dir, segs, i + 1)
  {
    hide AbsentSlots, NeedPages, SlotsIn;
  }

  /** The loop over the program headers. */
  method LoadSegments(vm: VirtualMemory, file: ElfFile, space: nat, ghost base: Base)
    returns (out: Outcome, info: ElfInfo, ghost img: map<nat, nat>, ghost bytes: map<nat, Byte>)
    requires vm.Valid() && Live(vm.State(), space) && base == BaseOf(vm.State()) && Acceptable(base, file)
    modifies vm`owner, vm.ram.words, vm.pmm, vm.pmm.bitmap
    ensures vm.Valid() && vm.spaces == old(vm.spaces) && space / PAGE_SIZE < MAX_PAGES
    ensures Loading(base, vm.State(), space / PAGE_SIZE, img, bytes)
    ensures out.Loaded? ==> LoadedUpTo(base, vm.State(), space / PAGE_SIZE, img, bytes, file, |file.phdrs|)
    ensures out.Loaded? ==> info == Booked(file.entry, file.phdrs, |file.phdrs|)
    ensures EnoughForAll(old(vm.State()), space / PAGE_SIZE, file.phdrs) ==> out.Loaded?
    ensures out.Loaded? && AllSized(file.phdrs) ==> EnoughForAll(old(vm.State()), space / PAGE_SIZE, file.phdrs)
  {
    hide Inv, Loading, LoadedUpTo, BaseOf, SegmentDone, SegmentCost, Enough, EnoughForAll, Balance, AbsentSlots;
    ghost var w0, dir := vm.State(), space / PAGE_SIZE;
    img, bytes := map[], map[];
    info := ElfInfo(file.entry, 0xFFFFFFFF, 0);
    LoadStarts(w0, dir, file);
    ghost var exact := EnoughForAll(w0, dir, file.phdrs) || AllSized(file.phdrs);
    var i := 0;
    while i < |file.phdrs|
      invariant 0 <= i <= |file.phdrs| && vm.Valid() && vm.spaces == old(vm.spaces)
      invariant Loading(base, vm.State(), dir, img, bytes) && LoadedUpTo(base, vm.State(), dir, img, bytes, file, i)
      invariant info == Booked(file.entry, file.phdrs, i)
      invariant exact ==> Balance(w0, vm.State(), dir, file.phdrs, i)
    {
      var seg := file.phdrs[i];
      ghost var w, img0, bytes0 := vm.State(), img, bytes;
      if IsLoad(seg) {
        SegmentOk(base, file, i);
        out, img, bytes := LoadSegment(vm, space, seg, file.bytes, base, img, bytes);
        if exact { BalanceStep(w0, w, vm.State(), dir, file.phdrs, i); }
        if AllSized(file.phdrs) { EmptyIsEnough(w, dir, seg); }
        if !out.Loaded? {
          return;
        }
        LoadedOneMore(base, w, vm.State(), dir, img0, img, bytes0, bytes, file, i);
        info := Book(info, seg);
      } else {
        NotALoad(base, w, dir, img, bytes, file, i);
        BalanceSkips(w0, w, dir, file.phdrs, i);
      }
      i := i + 1;
    }
    BalanceEnds(w0, vm.State(), dir, file.phdrs);
    out := Loaded;
  }

  lemma SegmentOk(base: Base, file: ElfFile, i: nat)
    requires Acceptable(base, file) && i < |file.phdrs| && IsLoad(file.phdrs[i])
    ensures Loadable(base, file.bytes, file.phdrs[i])
    ensures file.phdrs[i].vaddr + file.phdrs[i].memsz < 0x1_0000_0000
  {
  }

  lemma EmptyIsEnough(w: World, dir: nat, seg: Phdr)
    requires Inv(w) && dir in w.spaces
    ensures StartPage(seg) == EndPage(seg) ==> Enough(w, dir, seg)
  {
    TakeCount(w.frames);
  }

  lemma LoadStarts(w: World, dir: nat, file: ElfFile)
    requires Inv(w) && dir in w.spaces && Acceptable(BaseOf(w), file)
    ensures dir < MAX_PAGES && Loading(BaseOf(w), w, dir, map[], map[])
    ensures LoadedUpTo(BaseOf(w), w, dir, map[], map[], file, 0) && Balance(w, w, dir, file.phdrs, 0)
  {
    LoadingStart(w, dir);
  }

  lemma BalanceSkips(w0: World, w: World, dir: nat, segs: seq<Phdr>, i: nat)
    requires WellFormed(w0.store) && WellFormed(w.store) && dir < MAX_PAGES && i < |segs| && !IsLoad(segs[i])
    ensures Balance(w0, w, dir, segs, i) ==> Balance(w0, w, dir, segs, i + 1)
  {
  }

  lemma BalanceEnds(w0: World, w: World, dir: nat, segs: seq<Phdr>)
    requires WellFormed(w0.store) && Inv(w) && dir < MAX_PAGES
    ensures Balance(w0, w, dir, segs, |segs|) ==> EnoughForAll(w0, dir, segs)
  {
    TakeCount(w.frames);
  }

  /**
    elf_load_into with the target space active. readOk says whether the file could be buffered and read;
    info is what the caller's record held before.
   */
  method LoadInto(vm: VirtualMemory, file: ElfFile, readOk: bool, space: nat, info: ElfInfo)
    returns (out: Outcome, info': ElfInfo)
    requires vm.Valid() && Live(vm.State(), space)
    requires readOk && GoodHeader(file) ==> Acceptable(BaseOf(vm.State()), file)
    modifies vm`owner, vm.ram.words, vm.pmm, vm.pmm.bitmap
    ensures vm.Valid() && vm.spaces == old(vm.spaces) && space / PAGE_SIZE < MAX_PAGES
    ensures !readOk || !GoodHeader(file) ==> out.Failed? && vm.State() == old(vm.State()) && info' == info
    ensures readOk && GoodHeader(file) && EnoughForAll(old(vm.State()), space / PAGE_SIZE, file.phdrs) ==> out.Loaded?
    ensures out.Loaded? && AllSized(file.phdrs) ==> EnoughForAll(old(vm.State()), space / PAGE_SIZE, file.phdrs)
    ensures out.Loaded? ==> forall a: nat :: a < 0x1_0000_0000 ==>
              ShownAt(old(vm.State()), vm.State(), space / PAGE_SIZE, file, a)
    ensures out.Loaded? ==> forall p: nat :: p < PAGES ==>
              PermittedAt(vm.State().store, space / PAGE_SIZE, file.phdrs, p)
    ensures out.Loaded? ==> info' == Booked(file.entry, file.phdrs, |file.phdrs|)
    ensures forall x :: x in vm.spaces && x != space / PAGE_SIZE ==>
              View(vm.State().store, x) == old(View(vm.State().store, x))
  {
    hide Inv, Loading, LoadedUpTo, BaseOf, View, ShownAt, EnoughForAll, PermittedAt;
    Sizes(vm.State(), space / PAGE_SIZE);
    if !readOk {
      return Failed, info;
    }
    if file.magic != ELF_MAGIC || file.cls != 1 || file.data != 1 || file.machine != 3 || file.kind != 2 {
      return Failed, info;
    }
    ghost var w, dir := vm.State(), space / PAGE_SIZE;
    ghost var img, bytes;
    out, info', img, bytes := LoadSegments(vm, file, space, BaseOf(w));
    OthersKept(w, vm.State(), dir, img, bytes);
    if out.Loaded? {
      forall a: nat | a < 0x1_0000_0000 ensures ShownAt(w, vm.State(), dir, file, a) {
        LoadedShows(w, vm.State(), dir, img, bytes, file, a);
      }
      forall p: nat | p < PAGES ensures PermittedAt(vm.State().store, dir, file.phdrs, p) {
        PagesArePermitted(w, vm.State(), dir, file, p);
      }
    }
  }

  lemma OthersKept(w: World, w': World, dir: nat, img: map<nat, nat>, bytes: map<nat, Byte>)
    requires Inv(w) && Loading(BaseOf(w), w', dir, img, bytes)
    ensures Inv(w') && w'.spaces == w.spaces && dir in w.spaces
    ensures forall x :: x in w.spaces && x != dir ==> View(w'.store, x) == View(w.store, x)
  {
  }
}
