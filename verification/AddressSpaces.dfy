/**
  The virtual memory manager of src/memory/vmm.cpp, updating page tables in physical memory in place.

  An address space is named, as in the source, by the physical address of its directory. TLB
  invalidation and CR3 are not modelled; kernel code reaches every frame at its physical address.
 */
module AddressSpaces {
  import opened FrameAllocator
  import opened PageTables

  const VMM_PRESENT: nat := 1
  const VMM_WRITABLE: nat := 2
  const VMM_USER: nat := 4

  class PhysicalMemory {
    const words: array2<Word>

    constructor ()
      ensures Valid() && fresh(words)
    {
      words := new Word[MAX_PAGES, ENTRIES];
    }

    predicate Valid() {
      words.Length0 == MAX_PAGES && words.Length1 == ENTRIES
    }

    ghost function Snapshot(): (s: Store)
      requires Valid()
      reads words
      ensures WellFormed(s)
      ensures forall f, i :: 0 <= f < MAX_PAGES && 0 <= i < ENTRIES ==> s[f][i] == words[f, i]
    {
      seq(MAX_PAGES, f requires 0 <= f < MAX_PAGES reads words =>
        seq(ENTRIES, i requires 0 <= i < ENTRIES reads words => words[f, i]))
    }

    function Peek(f: nat, i: nat): (x: Word)
      requires Valid() && f < MAX_PAGES && i < ENTRIES
      reads words
      ensures x == Snapshot()[f][i]
    {
      words[f, i]
    }

    method Poke(f: nat, i: nat, x: Word)
      requires Valid() && f < MAX_PAGES && i < ENTRIES
      modifies words
      ensures Snapshot() == Poked(old(Snapshot()), f, i, x)
    {
      ghost var before := Snapshot();
      words[f, i] := x;
      ghost var after := Poked(before, f, i, x);
      forall g | 0 <= g < MAX_PAGES ensures Snapshot()[g] == after[g] {
        assert forall j :: 0 <= j < ENTRIES ==> Snapshot()[g][j] == after[g][j];
      }
    }

    /** Makes a frame an empty table: all its words are zero. */
    method ClearFrame(f: nat)
      requires Valid() && f < MAX_PAGES
      modifies words
      ensures Snapshot() == old(Snapshot())[f := EmptyTable()]
    {
      hide EmptyTable, Partly;
      ghost var was := old(Snapshot())[f];
      PartlyEnds(EmptyTable(), was);
      var i := 0;
      while i < ENTRIES
        invariant 0 <= i <= ENTRIES
        invariant Snapshot() == old(Snapshot())[f := Partly(EmptyTable(), was, i)]
      {
        PartlyStep(EmptyTable(), was, i);
        Poke(f, i, 0);
        i := i + 1;
      }
    }

    /** Makes one frame a copy of another, word by word. */
    method CopyFrame(dst: nat, src: nat)
      requires Valid() && dst < MAX_PAGES && src < MAX_PAGES && dst != src
      modifies words
      ensures Snapshot() == old(Snapshot())[dst := old(Snapshot())[src]]
    {
      hide Partly;
      ghost var was, from := old(Snapshot())[dst], old(Snapshot())[src];
      PartlyEnds(from, was);
      var i := 0;
      while i < ENTRIES
        invariant 0 <= i <= ENTRIES
        invariant Snapshot() == old(Snapshot())[dst := Partly(from, was, i)]
      {
        PartlyStep(from, was, i);
        Poke(dst, i, Peek(src, i));
        i := i + 1;
      }
    }
  }

  /** A frame of which the first i words have been written. */
  ghost function Partly(from: seq<Word>, was: seq<Word>, i: nat): (r: seq<Word>)
    requires |from| == |was| == ENTRIES && i <= ENTRIES
    ensures |r| == ENTRIES
  {
    from[..i] + was[i..]
  }

  lemma PartlyStep(from: seq<Word>, was: seq<Word>, i: nat)
    requires |from| == |was| == ENTRIES && i < ENTRIES
    ensures Partly(from, was, i)[i := from[i]] == Partly(from, was, i + 1)
  {
  }

  lemma PartlyEnds(from: seq<Word>, was: seq<Word>)
    requires |from| == |was| == ENTRIES
    ensures Partly(from, was, 0) == was && Partly(from, was, ENTRIES) == from
  {
  }

  /** A space handle that denotes a live space. */
  ghost predicate Live(w: World, space: nat) {
    space % PAGE_SIZE == 0 && space / PAGE_SIZE in w.spaces
  }

  class VirtualMemory {
    const ram: PhysicalMemory
    const pmm: FrameBitmap
    var kernelSpace: nat
    ghost var spaces: set<nat>
    ghost var owner: map<nat, Role>

    ghost function State(): World
      requires ram.Valid()
      reads this, ram.words, pmm
    {
      World(ram.Snapshot(), pmm.frames, kernelSpace / PAGE_SIZE, spaces, owner)
    }

    ghost predicate Valid()
      reads this, ram.words, pmm, pmm.bitmap
    {
      ram.Valid() && pmm.Valid() && kernelSpace % PAGE_SIZE == 0 && Inv(State())
    }

    /** Takes over the memory, the allocator and a directory that already satisfy the invariant. */
    constructor (ram: PhysicalMemory, pmm: FrameBitmap, kernelSpace: nat, ghost owner: map<nat, Role>)
      requires ram.Valid() && pmm.Valid() && kernelSpace % PAGE_SIZE == 0
      requires Inv(World(ram.Snapshot(), pmm.frames, kernelSpace / PAGE_SIZE, {kernelSpace / PAGE_SIZE}, owner))
      ensures Valid() && this.ram == ram && this.pmm == pmm
      ensures State() == World(ram.Snapshot(), pmm.frames, kernelSpace / PAGE_SIZE, {kernelSpace / PAGE_SIZE}, owner)
    {
      this.ram, this.pmm, this.kernelSpace := ram, pmm, kernelSpace;
      this.spaces, this.owner := {kernelSpace / PAGE_SIZE}, owner;
    }

    /** Makes sure the slot has a table, taking a frame for an empty one if it has none. */
    method EnsureTable(pd: nat, slot: nat) returns (ok: bool)
      requires Valid() && pd in spaces && slot < ENTRIES
      modifies this`owner, ram.words, pmm, pmm.bitmap
      ensures Valid()
      ensures ok <==> old(Present(State().store[pd][slot]) || LowestFree(pmm.frames) < pmm.frames.total)
      ensures State() == old(Tabled(State(), pd, slot))
    {
      ghost var w := State();
      if Present(ram.Peek(pd, slot)) {
        return true;
      }
      var pt := pmm.AllocPage();
      if pt == 0 {
        return false;
      }
      ghost var t := LowestFree(w.frames);
      ram.ClearFrame(pt / PAGE_SIZE);
      ram.Poke(pd, slot, Entry(pt / PAGE_SIZE, VMM_PRESENT + VMM_WRITABLE + VMM_USER));
      owner := owner[t := Table(pd, slot)];
      assert State() == WithTable(w, pd, slot, t);
      TabledKeeps(w, pd, slot);
      return true;
    }

    /**
      vmm_map: on success one page of one space changes, or the page of every space if the slot is one that all
      share; on failure nothing changes.
     */
    method MapPage(space: nat, virt: Word, phys: Word, flags: Word) returns (r: int)
      requires Valid() && Live(State(), space)
      modifies this`owner, ram.words, pmm, pmm.bitmap
      ensures Valid()
      ensures r == 0 || r == -1
      ensures r == 0 <==>
              old(Present(State().store[space / PAGE_SIZE][virt / 0x400000])
                  || LowestFree(pmm.frames) < pmm.frames.total)
      ensures r == -1 ==> State() == old(State())
      ensures r == 0 && old(Confined(State(), space / PAGE_SIZE, virt / 0x400000)) ==>
                && Views(State()) == MapAbstract(old(Views(State())), space / PAGE_SIZE, virt / PAGE_SIZE,
                                                 Decode(Entry(phys / PAGE_SIZE, flags % PAGE_SIZE)))
                && OwnsSlot(State().store[space / PAGE_SIZE][virt / 0x400000])
                && virt / PAGE_SIZE < PAGES && virt / PAGE_SIZE / ENTRIES == virt / 0x400000
                && State() == Mapped(old(State()), space / PAGE_SIZE, virt / PAGE_SIZE,
                                     Entry(phys / PAGE_SIZE, flags % PAGE_SIZE))
      ensures !old(Confined(State(), space / PAGE_SIZE, virt / 0x400000)) ==>
                && r == 0 && spaces == old(spaces) && owner == old(owner)
                && Views(State()) == Everywhere(old(Views(State())), virt / PAGE_SIZE,
                                                Restrict(old(State().store[space / PAGE_SIZE][virt / 0x400000]),
                                                         Decode(Entry(phys / PAGE_SIZE, flags % PAGE_SIZE))))
      ensures FrameBooks(old(State()), State(), space / PAGE_SIZE)
      ensures KeepsForeign(old(State()), State())
      ensures pmm.frames == if old(Present(State().store[space / PAGE_SIZE][virt / 0x400000]))
                            then old(pmm.frames) else TakeState(old(pmm.frames))
    {
      hide KeepsForeign, FrameBooks, Restrict, Decode, Everywhere, MapAbstract;
      var pdIdx := virt / 0x400000;
      var ptIdx := virt / 0x1000 % 0x400;
      var pd := space / PAGE_SIZE;
      var e := Entry(phys / PAGE_SIZE, flags % PAGE_SIZE);
      SplitAddress(virt);
      ghost var w := State();
      if Confined(w, pd, pdIdx) {
        MappedKeeps(w, pd, virt / PAGE_SIZE, e);
        MappedForeign(w, pd, virt / PAGE_SIZE, e);
      } else {
        SharedMapped(w, pd, virt / PAGE_SIZE, e);
      }
      var ok := EnsureTable(pd, pdIdx);
      if !ok {
        return -1;
      }
      ram.Poke(FrameOf(ram.Peek(pd, pdIdx)), ptIdx, e);
      assert Confined(w, pd, pdIdx) ==> State() == Mapped(w, pd, virt / PAGE_SIZE, e);
      return 0;
    }

    /** vmm_create_space: a private copy of the kernel's space, or nothing at all. */
    method CreateSpace() returns (space: nat)
      requires Valid()
      modifies this`spaces, this`owner, ram.words, pmm, pmm.bitmap
      ensures Valid()
      ensures space == 0 <==> old(TooFewFrames(State()))
      ensures space == 0 ==>
                && pmm.frames == old(pmm.frames) && spaces == old(spaces) && owner == old(owner)
                && Views(State()) == old(Views(State())) && SameShared(old(State()), State())
      ensures space != 0 ==> Created(old(State()), State(), space)
    {
      ghost var w := State();
      HeldAtMostTotal(w.frames);
      var newPd := pmm.AllocPage();
      if newPd == 0 {
        return 0;
      }
      BuildStart(w, newPd / PAGE_SIZE);
      space := FillDirectory(newPd, w);
    }

    /** The loop of vmm_create_space: it fills the whole directory or returns every frame it took. */
    method FillDirectory(newPd: nat, ghost w: World) returns (space: nat)
      requires ram.Valid() && pmm.Valid() && kernelSpace % PAGE_SIZE == 0
      requires w.kernel == kernelSpace / PAGE_SIZE && w.spaces == spaces && w.owner == owner
      requires newPd % PAGE_SIZE == 0 && newPd > 0
      requires Building(w, ram.Snapshot(), pmm.frames, newPd / PAGE_SIZE, map[newPd / PAGE_SIZE := Directory], 0)
      modifies this`spaces, this`owner, ram.words, pmm, pmm.bitmap
      ensures Valid()
      ensures space == 0 <==> TooFewFrames(w)
      ensures space == 0 ==>
                && pmm.frames == w.frames && spaces == w.spaces && owner == w.owner
                && Views(State()) == Views(w) && SameShared(w, State())
      ensures space != 0 ==> Created(w, State(), space)
    {
      hide Building, Inv, Created, SameShared, Represents, TooFewFrames;
      var nd := newPd / PAGE_SIZE;
      WholePages(newPd);
      ghost var own: map<nat, Role> := map[nd := Directory];
      var i := 0;
      while i < ENTRIES
        invariant 0 <= i <= ENTRIES && pmm.Valid() && spaces == w.spaces && owner == w.owner
        invariant Building(w, ram.Snapshot(), pmm.frames, nd, own, i)
      {
        var ok;
        ok, own := CopySlot(nd, i, w, own);
        if !ok {
          RollBack(nd, i, w, own);
          return 0;
        }
        i := i + 1;
      }
      Publish(nd, w, own);
      return newPd;
    }

    /** The finished directory becomes a live space; only the record of who owns what changes. */
    ghost method Publish(nd: nat, w: World, own: map<nat, Role>)
      requires ram.Valid() && pmm.Valid() && kernelSpace % PAGE_SIZE == 0
      requires w.kernel == kernelSpace / PAGE_SIZE && w.spaces == spaces && w.owner == owner
      requires Building(w, ram.Snapshot(), pmm.frames, nd, own, ENTRIES)
      modifies this`spaces, this`owner
      ensures Valid() && Created(w, State(), nd * PAGE_SIZE) && !TooFewFrames(w)
    {
      FinishCreated(w, ram.Snapshot(), pmm.frames, nd, own);
      spaces, owner := spaces + {nd}, owner + own;
      assert State() == WithSpace(w, ram.Snapshot(), pmm.frames, nd, own);
    }

    /** One round of the loop in vmm_create_space; it fails only when a table is needed and no frame is left. */
    method CopySlot(nd: nat, i: nat, ghost w: World, ghost own: map<nat, Role>) returns (ok: bool,
          ghost own': map<nat, Role>)
      requires ram.Valid() && pmm.Valid() && i < ENTRIES && w.kernel == kernelSpace / PAGE_SIZE
      requires Building(w, ram.Snapshot(), pmm.frames, nd, own, i)
      modifies ram.words, pmm, pmm.bitmap
      ensures pmm.Valid()
      ensures ok ==> Building(w, ram.Snapshot(), pmm.frames, nd, own', i + 1)
      ensures !ok ==> own' == own && Building(w, ram.Snapshot(), pmm.frames, nd, own, i) && TooFewFrames(w)
    {
      own' := own;
      var entry := ram.Peek(kernelSpace / PAGE_SIZE, i);
      ghost var store, built := ram.Snapshot(), pmm.frames;
      assert entry == w.store[w.kernel][i] by { assert w.kernel in w.owner; }
      if !Present(entry) {
        BuildPlain(w, store, built, nd, own, i, 0);
        ram.Poke(nd, i, 0);
      } else if User(entry) {
        ok, own' := CopyUserSlot(nd, i, entry, w, own);
        return ok, own';
      } else {
        BuildPlain(w, store, built, nd, own, i, entry);
        ram.Poke(nd, i, entry);
      }
      return true, own';
    }

    /** The branch for a USER slot: a fresh table with the same entries. */
    method CopyUserSlot(nd: nat, i: nat, entry: Word, ghost w: World, ghost own: map<nat, Role>)
      returns (ok: bool, ghost own': map<nat, Role>)
      requires ram.Valid() && pmm.Valid() && i < ENTRIES
      requires Building(w, ram.Snapshot(), pmm.frames, nd, own, i)
      requires entry == w.store[w.kernel][i] && OwnsSlot(entry)
      modifies ram.words, pmm, pmm.bitmap
      ensures pmm.Valid()
      ensures ok ==> Building(w, ram.Snapshot(), pmm.frames, nd, own', i + 1)
      ensures !ok ==> own' == own && Building(w, ram.Snapshot(), pmm.frames, nd, own, i) && TooFewFrames(w)
    {
      ghost var store, built := ram.Snapshot(), pmm.frames;
      var newPt := pmm.AllocPage();
      if newPt == 0 {
        OutOfFrames(w, store, built, nd, own, i);
        return false, own;
      }
      var pt := newPt / PAGE_SIZE;
      BuildTable(w, store, built, nd, own, i, pt);
      ram.CopyFrame(pt, FrameOf(entry));
      ram.Poke(nd, i, Entry(pt, entry % PAGE_SIZE));
      return true, own[pt := Table(nd, i)];
    }

    /** The failure path of vmm_create_space: every frame taken so far is returned. */
    method RollBack(nd: nat, i: nat, ghost w: World, ghost own: map<nat, Role>)
      requires ram.Valid() && pmm.Valid() && Building(w, ram.Snapshot(), pmm.frames, nd, own, i)
      requires kernelSpace % PAGE_SIZE == 0 && w.kernel == kernelSpace / PAGE_SIZE
      requires w.spaces == spaces && w.owner == owner
      modifies pmm, pmm.bitmap
      ensures Valid() && pmm.frames == w.frames
      ensures Views(State()) == Views(w) && SameShared(w, State())
    {
      ghost var plan := RollBackPlan(w, ram.Snapshot(), pmm.frames, nd, own, i);
      ReturnEnds(nd, own, plan);
      ReturnUserTables(nd, i, w.frames, own, plan);
      pmm.FreePage(nd * PAGE_SIZE);
      assert w.frames.held + {nd} - {nd} == w.frames.held;
      AgreeOnOwned(w, ram.Snapshot());
      assert State() == w.(store := ram.Snapshot());
    }

    /** Returns the private tables of the slots that were filled before the failure. */
    method ReturnUserTables(nd: nat, i: nat, ghost was: Frames, ghost own: map<nat, Role>, ghost plan: seq<nat>)
      requires ram.Valid() && pmm.Valid() && nd < MAX_PAGES && i <= ENTRIES
      requires ReturnPlan(nd, own, plan) && |plan| == i
      requires forall j :: 0 <= j < i ==> Planned(plan[j], User(ram.words[nd, j]), ram.words[nd, j])
      requires pmm.frames == was.(held := was.held + own.Keys) && own.Keys !! was.held
      modifies pmm, pmm.bitmap
      ensures pmm.Valid() && pmm.frames == was.(held := was.held + {nd})
    {
      ReturnEnds(nd, own, plan);
      var j := 0;
      while j < i
        invariant 0 <= j <= i && pmm.Valid()
        invariant pmm.frames == Returning(was, own, j)
      {
        ReturnSlot(was, nd, own, plan, j);
        if User(ram.Peek(nd, j)) {
          pmm.FreePage(FrameOf(ram.Peek(nd, j)) * PAGE_SIZE);
        }
        j := j + 1;
      }
    }

    /** vmm_destroy_space: the directory and the USER tables are returned, and nothing else. */
    method DestroySpace(space: nat)
      requires Valid() && (space == 0 || (Live(State(), space) && space != kernelSpace))
      modifies this`spaces, this`owner, pmm, pmm.bitmap
      ensures Valid()
      ensures State() == if space == 0 then old(State()) else WithoutSpace(old(State()), space / PAGE_SIZE)
    {
      if space == 0 {
        return;
      }
      ghost var w := State();
      var pd := space / PAGE_SIZE;
      RemoveSpace(w, pd);
      ghost var rest := w.frames.(held := Others(w, pd));
      ghost var plan := DestroyPlan(w, pd);
      ReturnPresentTables(pd, rest, OwnedRoles(w, pd), plan);
      pmm.FreePage(space);
      spaces, owner := spaces - {pd}, owner - OwnedBy(w, pd);
      assert rest.held + {pd} - {pd} == w.frames.held - OwnedBy(w, pd);
    }

    /** The loop of vmm_destroy_space. */
    method ReturnPresentTables(pd: nat, ghost was: Frames, ghost own: map<nat, Role>, ghost plan: seq<nat>)
      requires ram.Valid() && pmm.Valid() && pd < MAX_PAGES
      requires ReturnPlan(pd, own, plan) && |plan| == ENTRIES
      requires forall j :: 0 <= j < ENTRIES ==> Planned(plan[j], OwnsSlot(ram.words[pd, j]), ram.words[pd, j])
      requires pmm.frames == was.(held := was.held + own.Keys) && own.Keys !! was.held
      modifies pmm, pmm.bitmap
      ensures pmm.Valid() && pmm.frames == was.(held := was.held + {pd})
    {
      ReturnEnds(pd, own, plan);
      var i := 0;
      while i < ENTRIES
        invariant 0 <= i <= ENTRIES && pmm.Valid()
        invariant pmm.frames == Returning(was, own, i)
      {
        ReturnSlot(was, pd, own, plan, i);
        var entry := ram.Peek(pd, i);
        if Present(entry) && User(entry) {
          pmm.FreePage(FrameOf(entry) * PAGE_SIZE);
        }
        i := i + 1;
      }
    }

    /** vmm_unmap: the page becomes absent; a slot that is not present is left alone. */
    method UnmapPage(space: nat, virt: Word) returns (r: int)
      requires Valid() && Live(State(), space)
      modifies ram.words
      ensures Valid() && r == 0
      ensures old(Confined(State(), space / PAGE_SIZE, virt / 0x400000)) ==>
                Views(State()) == MapAbstract(old(Views(State())), space / PAGE_SIZE, virt / PAGE_SIZE, Fault)
      ensures !old(Confined(State(), space / PAGE_SIZE, virt / 0x400000)) ==>
                Views(State()) == Everywhere(old(Views(State())), virt / PAGE_SIZE, Fault)
      ensures FrameBooks(old(State()), State(), space / PAGE_SIZE)
    {
      var pdIdx := virt / 0x400000;
      var ptIdx := virt / 0x1000 % 0x400;
      var pd := space / PAGE_SIZE;
      ghost var w := State();
      var page := virt / PAGE_SIZE;
      SplitAddress(virt);
      if !Present(ram.Peek(pd, pdIdx)) {
        assert Views(w)[pd][page := Fault] == Views(w)[pd];
        return 0;
      }
      if Confined(w, pd, pdIdx) {
        TableWrite(w, pd, page, 0);
        TableIsPrivate(w, pd, pdIdx);
      } else {
        SharedMapped(w, pd, page, 0);
      }
      ram.Poke(FrameOf(ram.Peek(pd, pdIdx)), ptIdx, 0);
      return 0;
    }
  }

  ghost function MapAbstract(views: map<nat, seq<Translation>>, d: nat, page: nat, t: Translation)
      : map<nat, seq<Translation>>
    requires d in views && page < |views[d]|
  {
    views[d := views[d][page := t]]
  }

  /** The frames handed out that are not this space's directory or tables. */
  ghost function Others(w: World, d: nat): set<nat> {
    w.frames.held - OwnedBy(w, d)
  }

  /** The paging structures that are not this space's, and what they are for. */
  ghost function Elsewhere(w: World, d: nat): map<nat, Role> {
    w.owner - OwnedBy(w, d)
  }

  /** The books after an operation on space d: only its own frames may have moved. */
  ghost predicate FrameBooks(w: World, w': World, d: nat) {
    && w'.kernel == w.kernel
    && w'.frames.total == w.frames.total
    && w'.spaces == w.spaces
    && Others(w', d) == Others(w, d)
    && Elsewhere(w', d) == Elsewhere(w, d)
    && SameShared(w, w')
  }

  /** The slots in which the kernel's tables are shared by every space are the same. */
  ghost predicate SameShared(w: World, w': World) {
    && w'.kernel == w.kernel
    && w.kernel < |w.store| && w.kernel < |w'.store| && |w.store[w.kernel]| == |w'.store[w.kernel]| == ENTRIES
    && forall i :: 0 <= i < ENTRIES ==> SharesSlot(w'.store[w.kernel][i]) == SharesSlot(w.store[w.kernel][i])
  }

  /** The two indices of a virtual address are those of its page number. */
  lemma SplitAddress(virt: Word)
    ensures virt / PAGE_SIZE < PAGES
    ensures virt / PAGE_SIZE / ENTRIES == virt / 0x400000 < ENTRIES
    ensures virt / PAGE_SIZE % ENTRIES == virt / 0x1000 % 0x400
  {
  }

  /** The world after an entry has been written for a page, if its slot has or could get a table. */
  ghost function Mapped(w: World, d: nat, page: nat, e: Word): World
    requires Inv(w) && d in w.spaces && page < PAGES && Confined(w, d, page / ENTRIES)
  {
    var w1 := Tabled(w, d, page / ENTRIES);
    if Present(w.store[d][page / ENTRIES]) || LowestFree(w.frames) < w.frames.total then
      TabledKeeps(w, d, page / ENTRIES);
      TableIsPrivate(w1, d, page / ENTRIES);
      w1.(store := Poked(w1.store, FrameOf(w1.store[d][page / ENTRIES]), page % ENTRIES, e))
    else w
  }

  /** Frames that are no paging structures keep their contents, and new structures come from free frames. */
  ghost predicate KeepsForeign(w: World, w': World) {
    && |w.store| == |w'.store| == MAX_PAGES
    && w.owner.Keys <= w'.owner.Keys && w'.owner.Keys - w.owner.Keys !! w.frames.held
    && w.frames.held <= w'.frames.held
    && forall g {:trigger w'.store[g]} :: 0 <= g < MAX_PAGES && g !in w'.owner ==> w'.store[g] == w.store[g]
  }

  lemma MappedForeign(w: World, d: nat, page: nat, e: Word)
    requires Inv(w) && d in w.spaces && page < PAGES && Confined(w, d, page / ENTRIES)
    ensures KeepsForeign(w, Mapped(w, d, page, e))
  {
    var w1 := Tabled(w, d, page / ENTRIES);
    TabledKeeps(w, d, page / ENTRIES);
    if Present(w.store[d][page / ENTRIES]) || LowestFree(w.frames) < w.frames.total {
      TableIsPrivate(w1, d, page / ENTRIES);
    }
  }

  lemma MappedKeeps(w: World, d: nat, page: nat, e: Word)
    requires Inv(w) && d in w.spaces && page < PAGES && Confined(w, d, page / ENTRIES)
    ensures var w' := Mapped(w, d, page, e);
            var ok := Present(w.store[d][page / ENTRIES]) || LowestFree(w.frames) < w.frames.total;
            && Inv(w')
            && (ok ==> Views(w') == MapAbstract(Views(w), d, page, Decode(e)) && OwnsSlot(w'.store[d][page / ENTRIES]))
            && (ok ==> FrameOf(Tabled(w, d, page / ENTRIES).store[d][page / ENTRIES]) < MAX_PAGES)
            && FrameBooks(w, w', d)
  {
    var w1 := Tabled(w, d, page / ENTRIES);
    TabledKeeps(w, d, page / ENTRIES);
    BooksWithTable(w, d, page / ENTRIES);
    if Present(w.store[d][page / ENTRIES]) || LowestFree(w.frames) < w.frames.total {
      TableWrite(w1, d, page, e);
      TableIsPrivate(w1, d, page / ENTRIES);
    }
  }

  /** An entry written through a shared slot. */
  lemma SharedMapped(w: World, d: nat, page: nat, e: Word)
    requires Inv(w) && d in w.spaces && page < PAGES && !Confined(w, d, page / ENTRIES)
    ensures var t := FrameOf(w.store[d][page / ENTRIES]);
            t < MAX_PAGES &&
            var w' := w.(store := Poked(w.store, t, page % ENTRIES, e));
            && Inv(w') && Views(w') == Everywhere(Views(w), page, Restrict(w.store[d][page / ENTRIES], Decode(e)))
            && FrameBooks(w, w', d) && KeepsForeign(w, w')
  {
    SharedWrite(w, d, page, e);
    SharedWriteInv(w, d, page / ENTRIES, page % ENTRIES, e);
    assert SlotOk(w, d, page / ENTRIES);
  }

  lemma BooksWithTable(w: World, d: nat, slot: nat)
    requires Inv(w) && d in w.spaces && slot < ENTRIES
    ensures FrameBooks(w, Tabled(w, d, slot), d)
  {
    var w' := Tabled(w, d, slot);
    if w' != w {
      FreshIsUnowned(w, LowestFree(w.frames));
      EntryFields(LowestFree(w.frames), 7);
      assert OwnedBy(w', d) == OwnedBy(w, d) + {LowestFree(w.frames)};
    }
  }

  // ---------- Counting frames ----------

  lemma HeldAtMostTotal(fr: Frames)
    requires Sound(fr)
    ensures |fr.held| <= fr.total
    ensures LowestFree(fr) == fr.total ==> |fr.held| == fr.total
    ensures LowestFree(fr) < fr.total ==> |fr.held| < fr.total
  {
    CountComplement(fr);
    var free := set f: nat | 0 <= f < fr.total && f !in fr.held;
    if LowestFree(fr) < fr.total {
      assert LowestFree(fr) in free;
    } else {
      assert free == {};
    }
  }

  lemma {:induction false} UserSlotsGrow(row: seq<Word>, m: nat, n: nat)
    requires m <= n <= |row|
    ensures UserSlots(row, m) <= UserSlots(row, n)
  {
    if m < n {
      UserSlotsGrow(row, m, n - 1);
    }
  }

  /** There are not enough free frames for a directory and a table for each USER slot of the kernel. */
  ghost predicate TooFewFrames(w: World)
    requires Inv(w)
  {
    w.frames.total - |w.frames.held| < 1 + UserSlots(w.store[w.kernel], ENTRIES)
  }

  lemma OutOfFrames(w: World, store: Store, frames: Frames, nd: nat, own: map<nat, Role>, i: nat)
    requires Building(w, store, frames, nd, own, i) && i < ENTRIES && OwnsSlot(w.store[w.kernel][i])
    requires LowestFree(frames) == frames.total
    ensures TooFewFrames(w)
  {
    HeldAtMostTotal(frames);
    UserSlotsGrow(w.store[w.kernel], i + 1, ENTRIES);
    assert |own.Keys| == |own|;
  }

  lemma EnoughFrames(w: World, store: Store, frames: Frames, nd: nat, own: map<nat, Role>)
    requires Building(w, store, frames, nd, own, ENTRIES)
    ensures !TooFewFrames(w)
  {
    HeldAtMostTotal(frames);
    assert |own.Keys| == |own|;
  }

  // ---------- One slot of a new directory ----------

  lemma BuildStart(w: World, nd: nat)
    requires Inv(w) && nd == LowestFree(w.frames) < w.frames.total
    ensures Building(w, w.store, TakeState(w.frames), nd, map[nd := Directory], 0)
  {
    var own: map<nat, Role> := map[nd := Directory];
    FreshIsUnowned(w, nd);
    assert own.Keys == {nd};
    assert BuildBooks(w, w.store[nd], TakeState(w.frames), nd, own, 0);
  }

  /** Filling a slot that needs no table. */
  lemma BuildPlain(w: World, store: Store, frames: Frames, nd: nat, own: map<nat, Role>, i: nat, x: Word)
    requires Building(w, store, frames, nd, own, i) && i < ENTRIES && nd < MAX_PAGES
    requires var e := w.store[w.kernel][i]; !OwnsSlot(e) && x == if Present(e) then e else 0
    ensures Building(w, Poked(store, nd, i, x), frames, nd, own, i + 1)
  {
    var store' := Poked(store, nd, i, x);
    FreshIsUnowned(w, nd);
    forall j | 0 <= j < i + 1 ensures SlotCopied(w, store', nd, own, j) {
      if j < i {
        assert SlotCopied(w, store, nd, own, j);
      }
    }
  }

  lemma BuildTableBooks(w: World, row: seq<Word>, frames: Frames, nd: nat, own: map<nat, Role>, i: nat, t: nat)
    requires WellFormed(w.store) && w.kernel < MAX_PAGES && BuildBooks(w, row, frames, nd, own, i) && i < ENTRIES
    requires OwnsSlot(w.store[w.kernel][i])
    requires 0 < t < frames.total <= MAX_PAGES && t !in frames.held
    ensures var row' := row[i := Entry(t, w.store[w.kernel][i] % PAGE_SIZE)];
            BuildBooks(w, row', frames.(held := frames.held + {t}), nd, own[t := Table(nd, i)], i + 1)
  {
    hide UserSlots, BuildRoles;
    OneMoreSlot(w.store[w.kernel], i);
    OneMoreRole(w.store[w.kernel], row, nd, own, i, t);
    assert own[t := Table(nd, i)].Keys == own.Keys + {t};
  }

  lemma OneMoreRole(kernelRow: seq<Word>, row: seq<Word>, nd: nat, own: map<nat, Role>, i: nat, t: nat)
    requires |kernelRow| == |row| == ENTRIES && i < ENTRIES && t < MAX_PAGES
    requires BuildRoles(kernelRow, row, nd, own, i) && OwnsSlot(kernelRow[i])
    ensures BuildRoles(kernelRow, row[i := Entry(t, kernelRow[i] % PAGE_SIZE)], nd, own[t := Table(nd, i)], i + 1)
  {
    EntryFields(t, kernelRow[i] % PAGE_SIZE);
  }

  lemma OneMoreSlot(row: seq<Word>, i: nat)
    requires i < |row| && OwnsSlot(row[i])
    ensures UserSlots(row, i + 1) == UserSlots(row, i) + 1
  {
  }

  lemma BuildKeepsOwned(w: World, store: Store, nd: nat, i: nat, t: nat, row: seq<Word>, x: Word)
    requires KeepsOwned(w, store) && nd < MAX_PAGES && t < MAX_PAGES && i < ENTRIES && |row| == ENTRIES
    requires nd !in w.owner && t !in w.owner
    ensures KeepsOwned(w, Poked(store[t := row], nd, i, x))
  {
  }

  lemma BuildTableSlot(w: World, store: Store, frames: Frames, nd: nat, own: map<nat, Role>, i: nat, t: nat, j: nat)
    requires Building(w, store, frames, nd, own, i) && j <= i < ENTRIES
    requires OwnsSlot(w.store[w.kernel][i])
    requires 0 < t < frames.total && t !in frames.held && t < MAX_PAGES
    requires FrameOf(w.store[w.kernel][i]) < MAX_PAGES && FrameOf(w.store[w.kernel][i]) in w.owner
    ensures t != nd
    ensures var e := w.store[w.kernel][i];
            SlotCopied(w, Poked(store[t := store[FrameOf(e)]], nd, i, Entry(t, e % PAGE_SIZE)), nd,
                       own[t := Table(nd, i)], j)
  {
    EntryFields(t, w.store[w.kernel][i] % PAGE_SIZE);
    FreshIsUnowned(w, nd);
    if j < i {
      assert SlotCopied(w, store, nd, own, j);
    }
  }

  /** Filling a USER slot with a copy of the kernel's table in the fresh frame t. */
  lemma BuildTable(w: World, store: Store, frames: Frames, nd: nat, own: map<nat, Role>, i: nat, t: nat)
    requires Building(w, store, frames, nd, own, i) && i < ENTRIES
    requires OwnsSlot(w.store[w.kernel][i])
    requires t < frames.total && t !in frames.held
    ensures t < MAX_PAGES && t != nd && FrameOf(w.store[w.kernel][i]) < MAX_PAGES && FrameOf(w.store[w.kernel][i]) != t
    ensures var e := w.store[w.kernel][i];
            Building(w, Poked(store[t := store[FrameOf(e)]], nd, i, Entry(t, e % PAGE_SIZE)),
                     frames.(held := frames.held + {t}), nd, own[t := Table(nd, i)], i + 1)
  {
    var e := w.store[w.kernel][i];
    assert SlotOk(w, w.kernel, i);
    assert RoleOk(w, FrameOf(e));
    FreshIsUnowned(w, nd);
    FreshIsUnowned(w, t);
    BuildTableBooks(w, store[nd], frames, nd, own, i, t);
    BuildKeepsOwned(w, store, nd, i, t, store[FrameOf(e)], Entry(t, e % PAGE_SIZE));
    var store', own' := Poked(store[t := store[FrameOf(e)]], nd, i, Entry(t, e % PAGE_SIZE)), own[t := Table(nd, i)];
    forall j | 0 <= j < i + 1 ensures SlotCopied(w, store', nd, own', j) {
      BuildTableSlot(w, store, frames, nd, own, i, t, j);
    }
  }

  // ---------- Returning frames slot by slot ----------

  /**
    A plan for returning the tables in own: plan[j] is the frame to return at slot j, or 0. Every table
    is planned for exactly once.
   */
  ghost predicate ReturnPlan(nd: nat, own: map<nat, Role>, plan: seq<nat>) {
    && 0 !in own && nd in own && own[nd] == Directory
    && (forall f :: f in own && f != nd ==> own[f].Table? && own[f].slot < |plan| && plan[own[f].slot] == f)
    && (forall j :: 0 <= j < |plan| && plan[j] != 0 ==> plan[j] in own && own[plan[j]] == Table(nd, j))
  }

  /** The plan for an entry that the loop tests: its frame if the test passes, nothing otherwise. */
  ghost predicate Planned(f: nat, test: bool, e: Word) {
    if test then f == FrameOf(e) != 0 else f == 0
  }

  /** The frames that are still out when slot j is reached. */
  ghost function Unreturned(own: map<nat, Role>, j: nat): set<nat> {
    set f | f in own && (own[f].Table? ==> own[f].slot >= j)
  }

  /** The allocator when slot j is reached. */
  ghost function Returning(was: Frames, own: map<nat, Role>, j: nat): Frames {
    was.(held := was.held + Unreturned(own, j))
  }

  lemma ReturnSlot(was: Frames, nd: nat, own: map<nat, Role>, plan: seq<nat>, j: nat)
    requires ReturnPlan(nd, own, plan) && j < |plan| && own.Keys !! was.held
    ensures Returning(was, own, j + 1) ==
              if plan[j] == 0 then Returning(was, own, j) else GiveState(Returning(was, own, j), plan[j] * PAGE_SIZE)
  {
    if plan[j] != 0 {
      assert plan[j] * PAGE_SIZE / PAGE_SIZE == plan[j];
      assert Unreturned(own, j + 1) == Unreturned(own, j) - {plan[j]};
      assert was.held + Unreturned(own, j + 1) == was.held + Unreturned(own, j) - {plan[j]};
    } else {
      assert Unreturned(own, j + 1) == Unreturned(own, j);
    }
  }

  lemma ReturnEnds(nd: nat, own: map<nat, Role>, plan: seq<nat>)
    requires ReturnPlan(nd, own, plan)
    ensures Unreturned(own, 0) == own.Keys && Unreturned(own, |plan|) == {nd}
  {
  }

  /** The rollback of an unfinished directory looks at the USER bit only; that is plan enough. */
  lemma RollBackPlan(w: World, store: Store, frames: Frames, nd: nat, own: map<nat, Role>,
        i: nat) returns (plan: seq<nat>)
    requires Building(w, store, frames, nd, own, i)
    ensures |plan| == i && ReturnPlan(nd, own, plan)
    ensures forall j :: 0 <= j < i ==> Planned(plan[j], User(store[nd][j]), store[nd][j])
  {
    plan := seq(i, j requires 0 <= j < i => if User(store[nd][j]) then FrameOf(store[nd][j]) else 0);
    forall j | 0 <= j < i
      ensures User(store[nd][j]) <==> OwnsSlot(w.store[w.kernel][j])
      ensures User(store[nd][j]) ==> plan[j] in own && own[plan[j]] == Table(nd, j)
    {
      assert SlotCopied(w, store, nd, own, j);
      if Present(w.store[w.kernel][j]) {
        SameFlags(store[nd][j], w.store[w.kernel][j]);
      }
    }
  }

  ghost function OwnedRoles(w: World, d: nat): map<nat, Role> {
    map f | f in OwnedBy(w, d) :: w.owner[f]
  }

  /** Destroying a live space looks at PRESENT and USER. */
  lemma DestroyPlan(w: World, d: nat) returns (plan: seq<nat>)
    requires Inv(w) && d in w.spaces && d != w.kernel
    ensures |plan| == ENTRIES && ReturnPlan(d, OwnedRoles(w, d), plan)
    ensures forall j :: 0 <= j < ENTRIES ==> Planned(plan[j], OwnsSlot(w.store[d][j]), w.store[d][j])
  {
    plan := seq(ENTRIES, j requires 0 <= j < ENTRIES => if OwnsSlot(w.store[d][j]) then FrameOf(w.store[d][j]) else 0);
    forall f | f in OwnedBy(w, d)
      ensures f != 0 && (f != d ==> w.owner[f].Table? && w.owner[f].slot < ENTRIES && plan[w.owner[f].slot] == f)
    {
      assert RoleOk(w, f);
    }
    forall j | 0 <= j < ENTRIES && OwnsSlot(w.store[d][j])
      ensures plan[j] in OwnedBy(w, d) && w.owner[plan[j]] == Table(d, j)
    {
      assert SlotOk(w, d, j);
    }
  }

  /**
    What vmm_create_space achieves: a space that maps what the kernel maps, in frames that were all free,
    one for the directory and one for each USER slot.
   */
  ghost predicate Created(w: World, w': World, space: nat)
    requires Inv(w) && Inv(w')
  {
    var nd := space / PAGE_SIZE;
    && Live(w', space) && w'.kernel == w.kernel && w'.spaces == w.spaces + {nd} && nd !in w.spaces
    && Views(w') == Views(w)[nd := Views(w)[w.kernel]]
    && w'.frames == w.frames.(held := w.frames.held + OwnedBy(w', nd))
    && OwnedBy(w', nd) !! w.frames.held && Elsewhere(w', nd) == w.owner
    && |OwnedBy(w', nd)| == 1 + UserSlots(w.store[w.kernel], ENTRIES)
    && SameShared(w, w')
  }

  lemma FinishCreated(w: World, store: Store, frames: Frames, nd: nat, own: map<nat, Role>)
    requires Building(w, store, frames, nd, own, ENTRIES)
    ensures Inv(WithSpace(w, store, frames, nd, own))
    ensures Created(w, WithSpace(w, store, frames, nd, own), nd * PAGE_SIZE)
    ensures !TooFewFrames(w)
  {
    hide Building, Inv, Views, TooFewFrames, SameShared, OwnedBy, Elsewhere, Live;
    EnoughFrames(w, store, frames, nd, own);
    FinishSpace(w, store, frames, nd, own);
    FinishBooks(w, store, frames, nd, own);
    FinishFrames(w, store, frames, nd, own);
    IsLive(WithSpace(w, store, frames, nd, own), nd);
  }

  lemma WholePages(space: nat)
    requires space % PAGE_SIZE == 0
    ensures space == space / PAGE_SIZE * PAGE_SIZE
  {
  }

  lemma IsLive(w: World, d: nat)
    requires d in w.spaces && d > 0
    ensures Live(w, d * PAGE_SIZE) && d * PAGE_SIZE / PAGE_SIZE == d
  {
  }

  lemma FinishFrames(w: World, store: Store, frames: Frames, nd: nat, own: map<nat, Role>)
    requires Building(w, store, frames, nd, own, ENTRIES)
    ensures 0 < nd < MAX_PAGES && nd !in w.spaces && SameShared(w, WithSpace(w, store, frames, nd, own))
    ensures frames == w.frames.(held := w.frames.held + own.Keys) && own.Keys !! w.frames.held
    ensures w.kernel < |w.store| && |w.store[w.kernel]| == ENTRIES
    ensures |own.Keys| == 1 + UserSlots(w.store[w.kernel], ENTRIES)
  {
    FreshIsUnowned(w, nd);
    assert |own.Keys| == |own|;
  }

  lemma FinishBooks(w: World, store: Store, frames: Frames, nd: nat, own: map<nat, Role>)
    requires Building(w, store, frames, nd, own, ENTRIES)
    ensures OwnedBy(WithSpace(w, store, frames, nd, own), nd) == own.Keys
    ensures Elsewhere(WithSpace(w, store, frames, nd, own), nd) == w.owner
  {
    FreshIsUnowned(w, nd);
    forall f | f in w.owner && w.owner[f].Table? ensures w.owner[f].dir != nd {
      assert RoleOk(w, f);
    }
    forall f | f in own ensures f !in w.owner {
      FreshIsUnowned(w, f);
    }
  }
}
