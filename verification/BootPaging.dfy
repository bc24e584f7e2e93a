/**
  The boot identity map of src/memory/paging.cpp, built in place right after pmm_init.

  The directory and the first table are static arrays in the kernel image; dir and boot are the frames
  they occupy, which lie in the reserved first 4 MB.
 */
module BootPaging {
  import opened FrameAllocator
  import opened PageTables
  import opened AddressSpaces
  import opened AddressSpaceRuns

  ghost function DirectoryWord(boot: nat, slots: nat, s: nat): Word
    requires boot < MAX_PAGES && s < ENTRIES
  {
    if s == 0 then Entry(boot, 3) else if s < slots then Entry(1023 + s, 3) else 0
  }

  ghost function TableWord(page: nat, n: nat): Word
    requires n <= PAGES
  {
    if page < n then Entry(page, 3) else 0
  }

  ghost predicate DirectoryOk(store: Store, dir: nat, boot: nat, slots: nat)
    requires WellFormed(store) && dir < 1024 && boot < 1024
  {
    forall s {:trigger store[dir][s]} :: 0 <= s < ENTRIES ==> store[dir][s] == DirectoryWord(boot, slots, s)
  }

  /** The table in frame t holds the entries of its slot for the pages below n. */
  ghost predicate TableOk(store: Store, t: nat, n: nat)
    requires WellFormed(store) && 1023 <= t < MAX_PAGES && n <= MAX_PAGES
  {
    forall i {:trigger store[t][i]} :: 0 <= i < ENTRIES ==> store[t][i] == TableWord((t - 1023) * ENTRIES + i, n)
  }

  ghost predicate BootTableOk(store: Store, boot: nat)
    requires WellFormed(store) && boot < 1024
  {
    forall i {:trigger store[boot][i]} :: 0 <= i < ENTRIES ==> store[boot][i] == Entry(i, 3)
  }

  /**
    Memory once the pages below n have been entered in the first `slots` slots of the directory; the
    table of slot s > 0 is in frame 1023 + s.
   */
  ghost predicate Mapping(store: Store, dir: nat, boot: nat, n: nat, slots: nat)
    requires WellFormed(store) && dir < 1024 && boot < 1024
  {
    && 1024 <= n <= MAX_PAGES && 1 <= slots <= 256 && (slots - 1) * ENTRIES <= n <= slots * ENTRIES
    && DirectoryOk(store, dir, boot, slots)
    && BootTableOk(store, boot)
    && (forall t {:trigger TableOk(store, t, n)} :: 1024 <= t < 1023 + slots ==> TableOk(store, t, n))
  }

  /** The allocator after k tables have been taken. */
  ghost function BootTaken(mb: nat, k: nat): Frames {
    if k == 0 then BootFrames(mb) else BootFrames(mb).(held := Below(1024 + k))
  }

  lemma LowestOfBelow(total: nat, m: nat)
    requires m <= total
    ensures LowestFree(Frames(total, Below(m))) == m
  {
    var fr := Frames(total, Below(m));
    assert m in fr.held <==> m < m;
    assert LowestFree(fr) in fr.held <==> LowestFree(fr) < m;
  }

  lemma NextTable(mb: nat, k: nat)
    requires 1024 + k < mb * 256
    ensures LowestFree(BootTaken(mb, k)) == 1024 + k
    ensures TakeState(BootTaken(mb, k)) == BootTaken(mb, k + 1)
  {
    var m := 1024 + k;
    assert BootTaken(mb, k) == Frames(mb * 256, Below(m));
    LowestOfBelow(mb * 256, m);
    assert Below(m + 1) == Below(m) + {m};
  }

  /** A new table, still empty, for the slot that page n opens. */
  lemma OpenSlot(store: Store, dir: nat, boot: nat, n: nat, slots: nat)
    requires WellFormed(store) && dir < 1024 && boot < 1024 && dir != boot
    requires Mapping(store, dir, boot, n, slots) && n == slots * ENTRIES && slots < 256
    ensures Mapping(Poked(store[1023 + slots := EmptyTable()], dir, slots, Entry(1023 + slots, 3)),
                    dir, boot, n, slots + 1)
  {
    var store' := Poked(store[1023 + slots := EmptyTable()], dir, slots, Entry(1023 + slots, 3));
    forall t | 1024 <= t < 1023 + slots + 1 ensures TableOk(store', t, n) {
      if t < 1023 + slots {
        assert TableOk(store, t, n) && store'[t] == store[t];
      }
    }
  }

  /** Page n gets its entry in the last open slot. */
  lemma EnterPage(store: Store, dir: nat, boot: nat, n: nat, slots: nat)
    requires WellFormed(store) && dir < 1024 && boot < 1024
    requires Mapping(store, dir, boot, n, slots) && n < slots * ENTRIES && slots > 1
    ensures store[dir][slots - 1] == Entry(1022 + slots, 3)
    ensures Mapping(Poked(store, 1022 + slots, n - (slots - 1) * ENTRIES, Entry(n, 3)), dir, boot, n + 1, slots)
  {
    var store' := Poked(store, 1022 + slots, n - (slots - 1) * ENTRIES, Entry(n, 3));
    var n' := n + 1;
    forall t | 1024 <= t < 1023 + slots ensures TableOk(store', t, n') {
      assert TableOk(store, t, n);
    }
  }

  // ---------- What the finished map means ----------

  /** Identity on the first n pages, writable, closed to ring 3; nothing else is mapped. */
  ghost function IdentityView(n: nat): (v: seq<Translation>)
    ensures |v| == PAGES
    ensures forall p :: 0 <= p < PAGES ==> v[p] == if p < n then To(p, true, false) else Fault
  {
    seq(PAGES, p requires 0 <= p < PAGES => if p < n then To(p, true, false) else Fault)
  }

  lemma MappedView(store: Store, dir: nat, boot: nat, n: nat, slots: nat)
    requires WellFormed(store) && dir < 1024 && boot < 1024 && Mapping(store, dir, boot, n, slots)
    ensures View(store, dir) == IdentityView(n)
  {
    forall p | 0 <= p < PAGES ensures Walk(store, dir, p) == if p < n then To(p, true, false) else Fault {
      MappedWalk(store, dir, boot, n, slots, p);
    }
  }

  lemma MappedWalk(store: Store, dir: nat, boot: nat, n: nat, slots: nat, p: nat)
    requires WellFormed(store) && dir < 1024 && boot < 1024 && Mapping(store, dir, boot, n, slots) && p < PAGES
    ensures Walk(store, dir, p) == if p < n then To(p, true, false) else Fault
  {
    var s, i := p / ENTRIES, p % ENTRIES;
    EntryFields(boot, 3);
    EntryFields(1023 + s, 3);
    EntryFields(p, 3);
    var e := store[dir][s];
    assert e == DirectoryWord(boot, slots, s);
    if s == 0 {
      assert store[boot][i] == Entry(p, 3);
    } else if s < slots {
      assert TableOk(store, 1023 + s, n);
      assert store[1023 + s][i] == TableWord(p, n);
    }
  }

  /** The frames of the tables of slots 1, 2, ... */
  ghost function BootTables(slots: nat): (s: set<nat>)
    ensures forall f :: f in s <==> 1024 <= f < 1023 + slots
  {
    if slots <= 1 then {} else BootTables(slots - 1) + {1022 + slots}
  }

  /** The roles of the paging structures after boot: one directory and the shared tables. */
  ghost function BootOwner(dir: nat, boot: nat, slots: nat): (o: map<nat, Role>)
    ensures forall f :: f in o <==> f == dir || f == boot || 1024 <= f < 1023 + slots
    ensures forall f :: f in o ==>
              o[f] == if f == dir then Directory else Shared(if f == boot || f < 1023 then 0 else f - 1023)
  {
    var tables := {dir, boot} + BootTables(slots);
    map f | f in tables :: if f == dir then Directory else Shared(if f == boot || f < 1023 then 0 else f - 1023)
  }

  lemma BootRole(w: World, boot: nat, slots: nat, f: nat)
    requires WellFormed(w.store) && 0 < w.kernel < 1024 && boot < 1024 && w.kernel != boot && 1 <= slots <= 256
    requires w.spaces == {w.kernel} && w.owner == BootOwner(w.kernel, boot, slots)
    requires DirectoryOk(w.store, w.kernel, boot, slots)
    requires forall g :: 0 <= g < 1023 + slots && g < w.frames.total ==> g in w.frames.held
    requires f in w.owner
    ensures RoleOk(w, f)
  {
    if 1024 <= f {
      EntryFields(f, 3);
      assert w.store[w.kernel][f - 1023] == DirectoryWord(boot, slots, f - 1023);
    } else if f == boot {
      EntryFields(boot, 3);
      assert w.store[w.kernel][0] == DirectoryWord(boot, slots, 0);
    }
  }

  lemma BootSlot(w: World, boot: nat, slots: nat, i: nat)
    requires WellFormed(w.store) && 0 < w.kernel < 1024 && boot < 1024 && w.kernel != boot && 1 <= slots <= 256
    requires w.spaces == {w.kernel} && w.owner == BootOwner(w.kernel, boot, slots)
    requires DirectoryOk(w.store, w.kernel, boot, slots) && i < ENTRIES
    ensures SlotOk(w, w.kernel, i)
  {
    assert w.store[w.kernel][i] == DirectoryWord(boot, slots, i);
    EntryFields(boot, 3);
    EntryFields(1023 + i, 3);
  }

  lemma BootInv(store: Store, frames: Frames, dir: nat, boot: nat, slots: nat)
    requires WellFormed(store) && 0 < dir < 1024 && boot < 1024 && dir != boot && 1 <= slots <= 256
    requires DirectoryOk(store, dir, boot, slots)
    requires Sound(frames) && frames.total <= MAX_PAGES
    requires forall f :: 0 <= f < 1023 + slots && f < frames.total ==> f in frames.held
    ensures Inv(World(store, frames, dir, {dir}, BootOwner(dir, boot, slots)))
  {
    var w := World(store, frames, dir, {dir}, BootOwner(dir, boot, slots));
    forall i | 0 <= i < ENTRIES ensures SlotOk(w, dir, i) { BootSlot(w, boot, slots, i); }
    forall f | f in w.owner ensures RoleOk(w, f) { BootRole(w, boot, slots, f); }
  }

  /** The last page the identity map covers, plus one: at least the first 4 MB. */
  function EndPage(mb: nat): nat {
    if mb < 4 then 1024 else mb * 256
  }

  /** The number of 4 MB slots the identity map fills. */
  function EndSlots(mb: nat): nat {
    if mb < 4 then 1 else (mb + 3) / 4
  }

  lemma BootDone(store: Store, frames: Frames, dir: nat, boot: nat, mb: nat)
    requires WellFormed(store) && 0 < dir < 1024 && boot < 1024 && dir != boot && 1 <= mb <= MAX_RAM_MB
    requires Mapping(store, dir, boot, EndPage(mb), EndSlots(mb)) && frames == BootTaken(mb, EndSlots(mb) - 1)
    ensures View(store, dir) == IdentityView(EndPage(mb))
    ensures |frames.held| == |BootFrames(mb).held| + (mb + 3) / 4 - 1
    ensures Inv(World(store, frames, dir, {dir}, BootOwner(dir, boot, EndSlots(mb))))
    ensures forall p :: 0 <= p < EndPage(mb) ==> SharesSlot(store[dir][p / ENTRIES])
    ensures forall i :: EndSlots(mb) <= i < ENTRIES ==> store[dir][i] == 0
  {
    BootHeld(mb);
    MappedView(store, dir, boot, EndPage(mb), EndSlots(mb));
    assert DirectoryOk(store, dir, boot, EndSlots(mb));
    hide Mapping, BootTaken, BootFrames, Inv, View, DirectoryOk;
    BootInv(store, frames, dir, boot, EndSlots(mb));
    forall p | 0 <= p < EndPage(mb) ensures SharesSlot(store[dir][p / ENTRIES]) { BootShares(store, dir, boot, mb, p); }
  }

  lemma BootHeld(mb: nat)
    requires 1 <= mb <= MAX_RAM_MB
    ensures var frames := BootTaken(mb, EndSlots(mb) - 1);
            && Sound(frames) && frames.total <= MAX_PAGES
            && |frames.held| == |BootFrames(mb).held| + (mb + 3) / 4 - 1
            && forall f :: 0 <= f < 1023 + EndSlots(mb) && f < frames.total ==> f in frames.held
  {
  }

  lemma BootShares(store: Store, dir: nat, boot: nat, mb: nat, p: nat)
    requires WellFormed(store) && dir < 1024 && boot < 1024 && 1 <= mb <= MAX_RAM_MB && p < EndPage(mb)
    requires DirectoryOk(store, dir, boot, EndSlots(mb))
    ensures SharesSlot(store[dir][p / ENTRIES])
  {
    assert store[dir][p / ENTRIES] == DirectoryWord(boot, EndSlots(mb), p / ENTRIES);
    EntryFields(boot, 3);
    EntryFields(1023 + p / ENTRIES, 3);
  }

  // ---------- paging_init ----------

  /**
    Builds the identity map. mb is the detected memory; 0 stands for a failed detection, which the code
    replaces by 32 although the allocator was given none. The result says whether it panicked.
   */
  method PagingInit(ram: PhysicalMemory, pmm: FrameBitmap, mb: nat, dir: nat, boot: nat) returns (panicked: bool)
    requires ram.Valid() && pmm.Valid() && mb <= MAX_RAM_MB && pmm.frames == BootFrames(mb)
    requires 0 < dir < RESERVED_PAGES && boot < RESERVED_PAGES && dir != boot
    modifies ram.words, pmm, pmm.bitmap
    ensures pmm.Valid()
    ensures panicked <==> mb == 0
    ensures !panicked ==>
              && View(ram.Snapshot(), dir) == IdentityView(EndPage(mb))
              && |pmm.frames.held| == |BootFrames(mb).held| + (mb + 3) / 4 - 1
              && pmm.frames == BootTaken(mb, EndSlots(mb) - 1)
              && Inv(World(ram.Snapshot(), pmm.frames, dir, {dir}, BootOwner(dir, boot, EndSlots(mb))))
              && (forall p :: 0 <= p < EndPage(mb) ==> SharesSlot(ram.Snapshot()[dir][p / ENTRIES]))
              && forall i :: EndSlots(mb) <= i < ENTRIES ==> ram.Snapshot()[dir][i] == 0
  {
    var totalMb := mb;
    if totalMb == 0 {
      totalMb := 32;
    }
    FillBootTable(ram, dir, boot);
    var ok; ghost var slots;
    ok, slots := MapTheRest(ram, pmm, mb, totalMb, dir, boot);
    if !ok {
      return true;
    }
    BootDone(ram.Snapshot(), pmm.frames, dir, boot, mb);
    return false;
  }

  /** The loop of paging_init over the pages from 4 MB on. */
  method MapTheRest(ram: PhysicalMemory, pmm: FrameBitmap, mb: nat, totalMb: nat, dir: nat,
        boot: nat) returns (ok: bool, ghost slots: nat)
    requires ram.Valid() && pmm.Valid() && mb <= MAX_RAM_MB && totalMb == if mb == 0 then 32 else mb
    requires dir < RESERVED_PAGES && boot < RESERVED_PAGES && dir != boot
    requires Mapping(ram.Snapshot(), dir, boot, 1024, 1) && pmm.frames == BootTaken(mb, 0)
    modifies ram.words, pmm, pmm.bitmap
    ensures pmm.Valid() && (ok <==> mb != 0)
    ensures ok ==> slots == EndSlots(mb) && Mapping(ram.Snapshot(), dir, boot, EndPage(mb), slots)
    ensures ok ==> pmm.frames == BootTaken(mb, slots - 1)
  {
    hide Mapping, BootTaken;
    var endAddr := totalMb * 1024 * 1024;
    var addr := 0x400000;
    ghost var n := 1024;
    slots := 1;
    while addr < endAddr
      invariant pmm.Valid() && addr == n * PAGE_SIZE
      invariant 1024 <= n && 1 <= slots && (slots - 1) * ENTRIES < n <= slots * ENTRIES
      invariant if mb == 0 then n == 1024 else n <= EndPage(mb)
      invariant Mapping(ram.Snapshot(), dir, boot, n, slots)
      invariant pmm.frames == BootTaken(mb, slots - 1)
    {
      ok, slots := EnterIdentity(ram, pmm, mb, dir, boot, addr, n, slots);
      if !ok {
        return;
      }
      addr, n := addr + 0x1000, n + 1;
    }
    ok := true;
    LastPage(mb, totalMb, n, slots);
  }

  lemma LastPage(mb: nat, totalMb: nat, n: nat, slots: nat)
    requires totalMb == if mb == 0 then 32 else mb
    requires totalMb * 1024 * 1024 <= n * PAGE_SIZE && 1024 <= n
    requires if mb == 0 then n == 1024 else n <= EndPage(mb)
    requires 1 <= slots && (slots - 1) * ENTRIES < n <= slots * ENTRIES
    ensures mb != 0 && n == EndPage(mb) && slots == EndSlots(mb)
  {
  }

  method FillBootTable(ram: PhysicalMemory, dir: nat, boot: nat)
    requires ram.Valid() && dir < RESERVED_PAGES && boot < RESERVED_PAGES && dir != boot
    modifies ram.words
    ensures Mapping(ram.Snapshot(), dir, boot, 1024, 1)
  {
    var i := 0;
    while i < ENTRIES
      invariant 0 <= i <= ENTRIES
      invariant forall k :: 0 <= k < i ==> ram.Snapshot()[boot][k] == Entry(k, 3)
    {
      ram.Poke(boot, i, Entry(i, 3));
      i := i + 1;
    }
    ram.ClearFrame(dir);
    ram.Poke(dir, 0, Entry(boot, 3));
  }

  /** One round of the loop in paging_init; n is the number of the page at addr. */
  method EnterIdentity(ram: PhysicalMemory, pmm: FrameBitmap, mb: nat, dir: nat, boot: nat, addr: nat, ghost n: nat,
        ghost slots: nat)
    returns (ok: bool, ghost slots': nat)
    requires ram.Valid() && pmm.Valid() && mb <= MAX_RAM_MB
    requires dir < RESERVED_PAGES && boot < RESERVED_PAGES && dir != boot
    requires addr == n * PAGE_SIZE && 1024 <= n && if mb == 0 then n == 1024 else n < mb * 256
    requires Mapping(ram.Snapshot(), dir, boot, n, slots) && (slots - 1) * ENTRIES < n
    requires pmm.frames == BootTaken(mb, slots - 1)
    modifies ram.words, pmm, pmm.bitmap
    ensures pmm.Valid() && (ok <==> mb != 0)
    ensures ok ==>
              Mapping(ram.Snapshot(), dir, boot, n + 1, slots') && (slots' - 1) * ENTRIES < n + 1 <= slots' * ENTRIES
    ensures ok ==> pmm.frames == BootTaken(mb, slots' - 1)
  {
    var pdIdx, ptIdx := addr / 0x400000, addr / 0x1000 % 0x400;
    PageIndices(addr, n, slots);
    ok, slots' := OpenSlotFor(ram, pmm, mb, dir, boot, pdIdx, n, slots);
    if ok {
      EnterEffect(ram.Snapshot(), dir, boot, addr, n, slots');
      ram.Poke(FrameOf(ram.Peek(dir, pdIdx)), ptIdx, Entry(addr / PAGE_SIZE, 3));
    }
  }

  lemma EnterEffect(store: Store, dir: nat, boot: nat, addr: nat, n: nat, slots: nat)
    requires WellFormed(store) && dir < 1024 && boot < 1024
    requires Mapping(store, dir, boot, n, slots) && n < slots * ENTRIES && slots > 1 && addr == n * PAGE_SIZE
    ensures addr / 0x400000 < ENTRIES && addr / PAGE_SIZE < PAGES
    ensures FrameOf(store[dir][addr / 0x400000]) < MAX_PAGES
    ensures Mapping(Poked(store, FrameOf(store[dir][addr / 0x400000]), addr / 0x1000 % 0x400,
                          Entry(addr / PAGE_SIZE, 3)),
                    dir, boot, n + 1, slots)
  {
    PageIndices(addr, n, slots);
    EnterPage(store, dir, boot, n, slots);
    EntryFields(1022 + slots, 3);
  }

  lemma PageIndices(addr: nat, n: nat, slots: nat)
    requires addr == n * PAGE_SIZE && 1 <= slots && (slots - 1) * ENTRIES <= n <= slots * ENTRIES
    ensures addr / PAGE_SIZE == n
    ensures n < slots * ENTRIES ==> addr / 0x400000 == slots - 1 && addr / 0x1000 % 0x400 == n - (slots - 1) * ENTRIES
    ensures n == slots * ENTRIES ==> addr / 0x400000 == slots
  {
    assert addr / 0x1000 == n;
    assert addr / 0x400000 == n / 1024;
  }

  /** Takes a frame for the slot's table if the slot is still absent. */
  method OpenSlotFor(ram: PhysicalMemory, pmm: FrameBitmap, mb: nat, dir: nat, boot: nat, pdIdx: nat, ghost n: nat,
        ghost slots: nat)
    returns (ok: bool, ghost slots': nat)
    requires ram.Valid() && pmm.Valid() && mb <= MAX_RAM_MB
    requires dir < RESERVED_PAGES && boot < RESERVED_PAGES && dir != boot
    requires 1024 <= n && if mb == 0 then n == 1024 else n < mb * 256
    requires Mapping(ram.Snapshot(), dir, boot, n, slots) && (slots - 1) * ENTRIES < n
    requires pdIdx == if n < slots * ENTRIES then slots - 1 else slots
    requires pmm.frames == BootTaken(mb, slots - 1)
    modifies ram.words, pmm, pmm.bitmap
    ensures pmm.Valid() && (ok <==> mb != 0)
    ensures ok ==>
              1 < slots' && pdIdx == slots' - 1 && n < slots' * ENTRIES && Mapping(ram.Snapshot(), dir, boot, n, slots')
    ensures ok ==> pmm.frames == BootTaken(mb, slots' - 1)
  {
    SlotPresence(ram.Snapshot(), dir, boot, slots, pdIdx);
    if Present(ram.Peek(dir, pdIdx)) {
      return true, slots;
    }
    TableAnswer(mb, n, slots);
    OpenSlotEffect(ram.Snapshot(), dir, boot, n, slots);
    var pt := pmm.AllocPage();
    if pt == 0 {
      return false, slots;
    }
    ram.ClearFrame(pt / PAGE_SIZE);
    ram.Poke(dir, pdIdx, Entry(pt / PAGE_SIZE, 3));
    return true, slots + 1;
  }

  lemma SlotPresence(store: Store, dir: nat, boot: nat, slots: nat, s: nat)
    requires WellFormed(store) && dir < 1024 && boot < 1024
    requires DirectoryOk(store, dir, boot, slots) && s < ENTRIES && 1 <= slots
    ensures Present(store[dir][s]) <==> s < slots
  {
    EntryFields(1023 + s, 3);
    EntryFields(boot, 3);
    assert store[dir][s] == DirectoryWord(boot, slots, s);
  }

  /** Right after pmm_init the allocator always has a frame for the next table, unless there is no memory at all. */
  lemma TableAnswer(mb: nat, n: nat, slots: nat)
    requires 1 <= slots && n == slots * ENTRIES && if mb == 0 then n == 1024 else n < mb * 256
    ensures TakeResult(BootTaken(mb, slots - 1)) == if mb == 0 then 0 else (1023 + slots) * PAGE_SIZE
    ensures mb > 0 ==> TakeState(BootTaken(mb, slots - 1)) == BootTaken(mb, slots)
  {
    if mb > 0 {
      NextTable(mb, slots - 1);
    }
  }

  lemma OpenSlotEffect(store: Store, dir: nat, boot: nat, n: nat, slots: nat)
    requires WellFormed(store) && dir < 1024 && boot < 1024 && dir != boot
    requires Mapping(store, dir, boot, n, slots) && n == slots * ENTRIES < MAX_PAGES
    ensures var t := (1023 + slots) * PAGE_SIZE / PAGE_SIZE;
            t < MAX_PAGES && Mapping(Poked(store[t := EmptyTable()], dir, slots, Entry(t, 3)), dir, boot, n, slots + 1)
  {
    OpenSlot(store, dir, boot, n, slots);
  }

  // ---------- From boot on ----------

  /** kernel_main up to vmm_init: allocator, identity map, virtual memory manager. */
  method BootMemory(mb: nat, dir: nat, boot: nat) returns (vm: VirtualMemory?)
    requires mb <= MAX_RAM_MB && 0 < dir < RESERVED_PAGES && boot < RESERVED_PAGES && dir != boot
    ensures vm == null <==> mb == 0
    ensures vm != null ==>
              && fresh(vm) && fresh(vm.ram.words) && fresh(vm.pmm) && fresh(vm.pmm.bitmap)
              && vm.Valid() && Booted(vm.State(), mb)
  {
    var ram := new PhysicalMemory();
    var pmm := new FrameBitmap(mb);
    var panicked := PagingInit(ram, pmm, mb, dir, boot);
    if panicked {
      return null;
    }
    assert dir * PAGE_SIZE / PAGE_SIZE == dir;
    vm := new VirtualMemory(ram, pmm, dir * PAGE_SIZE, BootOwner(dir, boot, EndSlots(mb)));
  }

  /**
    The kernel's space is the identity on all of memory, in slots that every space will share; the other slots are
    absent, and only the page tables have been taken from the frames.
   */
  ghost predicate Booted(w: World, mb: nat) {
    && Inv(w) && 1 <= mb <= MAX_RAM_MB && w.spaces == {w.kernel} && w.frames == BootTaken(mb, EndSlots(mb) - 1)
    && View(w.store, w.kernel) == IdentityView(EndPage(mb))
    && (forall p :: 0 <= p < EndPage(mb) ==> SharesSlot(w.store[w.kernel][p / ENTRIES]))
    && forall i :: EndSlots(mb) <= i < ENTRIES ==> w.store[w.kernel][i] == 0
  }

  /** From boot on, whatever is created, mapped or destroyed, every space reaches every frame at its own address. */
  lemma IdentityForEver(ws: seq<World>, ops: seq<VmOp>, rs: seq<int>, mb: nat, d: nat, p: nat)
    requires VmRun(ws, ops, rs) && Booted(ws[0], mb) && d in ws[|ops|].spaces && (p < 1024 || p < mb * 256)
    ensures Inv(ws[|ops|]) && Walk(ws[|ops|].store, d, p) == To(p, true, false)
  {
    SharedForEver(ws, ops, rs, d, p);
    assert View(ws[0].store, ws[0].kernel)[p] == To(p, true, false);
  }

  /**
    Nothing keeps a caller from mapping such an address: from boot on, in every run, an entry that vmm_map writes
    for it into any one space changes the page in all of them.
   */
  lemma KernelPageIsEverybodys(ws: seq<World>, ops: seq<VmOp>, rs: seq<int>, mb: nat, d: nat, p: nat, e: Word, x: nat)
    requires VmRun(ws, ops, rs) && Booted(ws[0], mb) && d in ws[|ops|].spaces
    requires x in ws[|ops|].spaces && p < EndPage(mb)
    ensures Inv(ws[|ops|]) && p < PAGES && d < MAX_PAGES && x < MAX_PAGES && !Confined(ws[|ops|], d, p / ENTRIES)
    ensures var w := ws[|ops|]; var t := FrameOf(w.store[d][p / ENTRIES]);
            && t < MAX_PAGES
            && Walk(Poked(w.store, t, p % ENTRIES, e), x, p) == Restrict(w.store[w.kernel][p / ENTRIES], Decode(e))
  {
    KernelPageFixed(ws, ops, rs, |ops|, p);
    var w := ws[|ops|];
    assert SlotOk(w, d, p / ENTRIES) && SlotOk(w, x, p / ENTRIES);
    hide VmRun, Walk;
    UnconfinedMapIsGlobal(w, d, p, e, x);
  }
}
