/**
  Two-level page tables in physical memory: the walk of section 4.3 ("32-Bit Paging") of the Intel SDM,
  volume 3A, and the invariant that ties the frames used as directories and tables to the frame allocator.

  Everything here is a property of values. The classes that update memory in place are in
  AddressSpaces.dfy, BootPaging.dfy and ElfLoader.dfy.
 */
module PageTables {
  import opened FrameAllocator

  type Word = x: int | 0 <= x < 0x1_0000_0000

  const ENTRIES: nat := 1024
  const PAGES: nat := 0x100000         // 4 GB of virtual pages

  /** Physical memory as frames of 1024 words. */
  type Store = seq<seq<Word>>

  ghost predicate WellFormed(store: Store) {
    && |store| == MAX_PAGES
    && forall f :: 0 <= f < |store| ==> |store[f]| == ENTRIES
  }

  // ---------- Entries ----------

  predicate Present(e: Word) { e % 2 == 1 }
  predicate Writable(e: Word) { e / 2 % 2 == 1 }
  predicate User(e: Word) { e / 4 % 2 == 1 }

  /** addr & 0xFFFFF000, as a frame number. */
  function FrameOf(e: Word): nat { e / PAGE_SIZE }

  /** A frame's address | flags: the address is a multiple of 4096 and the flags are below 4096. */
  function Entry(f: nat, flags: nat): Word
    requires f < PAGES && flags < PAGE_SIZE
  {
    f * PAGE_SIZE + flags
  }

  lemma EntryFields(f: nat, flags: nat)
    requires f < PAGES && flags < PAGE_SIZE
    ensures FrameOf(Entry(f, flags)) == f
    ensures Entry(f, flags) % PAGE_SIZE == flags
    ensures Present(Entry(f, flags)) == Present(flags)
    ensures Writable(Entry(f, flags)) == Writable(flags)
    ensures User(Entry(f, flags)) == User(flags)
  {
    SameBit(f * 2048, flags);
    SameBit(f * 1024, flags / 2);
    SameBit(f * 512, flags / 4);
  }

  /** Adding an even number changes neither the lowest bit nor what is above it in the addend. */
  lemma SameBit(n: nat, x: nat)
    ensures (2 * n + x) % 2 == x % 2 && (2 * n + x) / 2 == n + x / 2
  {
  }

  // ---------- The walk ----------

  datatype Translation = Fault | To(frame: nat, writable: bool, user: bool)

  function Decode(e: Word): Translation {
    if Present(e) then To(FrameOf(e), Writable(e), User(e)) else Fault
  }

  /** A page is writable, or open to ring 3, only if both levels say so. */
  function Restrict(dirEntry: Word, t: Translation): Translation {
    match t
    case Fault => Fault
    case To(f, w, u) => To(f, Writable(dirEntry) && w, User(dirEntry) && u)
  }

  function Walk(store: Store, dir: nat, page: nat): Translation
    requires WellFormed(store) && dir < MAX_PAGES && page < PAGES
  {
    var e := store[dir][page / ENTRIES];
    if !Present(e) || FrameOf(e) >= MAX_PAGES then Fault
    else Restrict(e, Decode(store[FrameOf(e)][page % ENTRIES]))
  }

  /** Everything a directory maps, page by page. */
  ghost function View(store: Store, dir: nat): (v: seq<Translation>)
    requires WellFormed(store) && dir < MAX_PAGES
    ensures |v| == PAGES
    ensures forall p :: 0 <= p < PAGES ==> v[p] == Walk(store, dir, p)
  {
    seq(PAGES, p requires 0 <= p < PAGES => Walk(store, dir, p))
  }

  // ---------- The ownership invariant ----------

  datatype Role = Directory | Table(dir: nat, slot: nat) | Shared(slot: nat)

  /**
    Memory, allocator and the live address spaces. `owner` records what each paging structure is for;
    that it is a map is what keeps two structures from sharing a frame.
   */
  datatype World = World(store: Store, frames: Frames, kernel: nat, spaces: set<nat>, owner: map<nat, Role>)

  predicate OwnsSlot(e: Word) { Present(e) && User(e) }
  predicate SharesSlot(e: Word) { Present(e) && !User(e) }

  /**
    A USER slot leads to a table of this space alone and restricts nothing; a present slot without USER
    is the kernel's own slot, which every space has.
   */
  ghost predicate SlotOk(w: World, d: nat, i: nat)
    requires WellFormed(w.store) && d < MAX_PAGES && w.kernel < MAX_PAGES && i < ENTRIES
  {
    var e := w.store[d][i];
    var k := w.store[w.kernel][i];
    && (OwnsSlot(e) ==> Writable(e) && FrameOf(e) in w.owner && w.owner[FrameOf(e)] == Table(d, i))
    && (SharesSlot(e) ==> e == k && FrameOf(e) in w.owner && w.owner[FrameOf(e)] == Shared(i))
    && (SharesSlot(k) ==> e == k)
  }

  /** A frame with a role is what its role says, and the allocator will not hand it out. */
  ghost predicate RoleOk(w: World, f: nat)
    requires WellFormed(w.store) && f in w.owner
    requires forall d :: d in w.spaces ==> d < MAX_PAGES
    requires w.kernel in w.spaces
  {
    && f < MAX_PAGES
    && (f < w.frames.total ==> f in w.frames.held)
    && match w.owner[f]
       case Directory => f in w.spaces && (f != w.kernel ==> 0 < f < w.frames.total)
       case Table(d, i) =>
         && d in w.spaces && i < ENTRIES && 0 < f < w.frames.total
         && OwnsSlot(w.store[d][i]) && FrameOf(w.store[d][i]) == f
       case Shared(i) =>
         i < ENTRIES && SharesSlot(w.store[w.kernel][i]) && FrameOf(w.store[w.kernel][i]) == f
  }

  ghost predicate Inv(w: World) {
    && WellFormed(w.store)
    && Sound(w.frames) && w.frames.total <= MAX_PAGES
    && (0 < w.frames.total ==> 0 in w.frames.held)
    && w.kernel in w.spaces
    && (forall d :: d in w.spaces ==> d < MAX_PAGES && d in w.owner && w.owner[d] == Directory)
    && (forall d, i {:trigger SlotOk(w, d, i)} :: d in w.spaces && 0 <= i < ENTRIES ==> SlotOk(w, d, i))
    && (forall f {:trigger RoleOk(w, f)} :: f in w.owner ==> RoleOk(w, f))
  }

  /** What every live space maps: the abstract state of the virtual memory manager. */
  ghost function Views(w: World): (m: map<nat, seq<Translation>>)
    requires Inv(w)
    ensures m.Keys == w.spaces
    ensures forall d :: d in m ==> m[d] == View(w.store, d)
  {
    map d | d in w.spaces :: View(w.store, d)
  }

  /** The directory slot of a virtual page is one vmm_map may use: absent, or a USER slot. */
  predicate Confined(w: World, d: nat, slot: nat)
    requires d < |w.store| && slot < |w.store[d]|
  {
    !SharesSlot(w.store[d][slot])
  }

  lemma FreshIsUnowned(w: World, f: nat)
    requires Inv(w) && f < w.frames.total && f !in w.frames.held
    ensures f !in w.owner && 0 < f < MAX_PAGES && f !in w.spaces
  {
    if f in w.owner && !RoleOk(w, f) {
      assert false;
    }
  }

  // ---------- What a write can disturb ----------

  ghost predicate KeepsOwned(w: World, store: Store) {
    && WellFormed(store) && WellFormed(w.store)
    && forall f {:trigger store[f]} :: f in w.owner && f < MAX_PAGES ==> store[f] == w.store[f]
  }

  /** Memory that keeps every owned frame keeps the invariant and every space's view. */
  lemma AgreeOnOwned(w: World, store: Store)
    requires Inv(w) && KeepsOwned(w, store)
    ensures Inv(w.(store := store))
    ensures Views(w.(store := store)) == Views(w)
  {
    var w' := w.(store := store);
    forall d | d in w.spaces ensures store[d] == w.store[d] {
      assert RoleOk(w, d);
    }
    assert forall d, i :: d in w.spaces && 0 <= i < ENTRIES ==> SlotOk(w, d, i) ==> SlotOk(w', d, i);
    assert forall f :: f in w.owner ==> RoleOk(w, f) ==> RoleOk(w', f);
    forall d | d in w.spaces ensures View(store, d) == View(w.store, d) {
      forall p | 0 <= p < PAGES ensures Walk(store, d, p) == Walk(w.store, d, p) {
        assert SlotOk(w, d, p / ENTRIES);
        var e := w.store[d][p / ENTRIES];
        if Present(e) {
          assert RoleOk(w, FrameOf(e));
        }
      }
    }
  }

  ghost function Poked(store: Store, f: nat, i: nat, x: Word): Store
    requires f < |store| && i < |store[f]|
  {
    var row: seq<Word> := store[f][i := x];
    store[f := row]
  }

  /** The USER table that translates a page is a frame of its own: no directory, and of no other slot. */
  lemma TableIsPrivate(w: World, d: nat, slot: nat)
    requires Inv(w) && d in w.spaces && slot < ENTRIES && OwnsSlot(w.store[d][slot])
    ensures var t := FrameOf(w.store[d][slot]);
            && t < MAX_PAGES && t !in w.spaces && t in w.owner && w.owner[t] == Table(d, slot)
            && Writable(w.store[d][slot])
            && forall x, i ::
                 x in w.spaces && 0 <= i < ENTRIES && Present(w.store[x][i]) && FrameOf(w.store[x][i]) == t ==>
                   x == d && i == slot
  {
    assert SlotOk(w, d, slot);
    assert RoleOk(w, FrameOf(w.store[d][slot]));
    forall x, i | x in w.spaces && 0 <= i < ENTRIES && Present(w.store[x][i])
                  && FrameOf(w.store[x][i]) == FrameOf(w.store[d][slot])
      ensures x == d && i == slot
    {
      assert SlotOk(w, x, i);
    }
  }

  lemma TableWriteInv(w: World, d: nat, slot: nat, j: nat, e: Word)
    requires Inv(w) && d in w.spaces && slot < ENTRIES && j < ENTRIES && OwnsSlot(w.store[d][slot])
    ensures FrameOf(w.store[d][slot]) < MAX_PAGES
    ensures Inv(w.(store := Poked(w.store, FrameOf(w.store[d][slot]), j, e)))
  {
    TableIsPrivate(w, d, slot);
    var w' := w.(store := Poked(w.store, FrameOf(w.store[d][slot]), j, e));
    assert forall x :: x in w.spaces ==> w'.store[x] == w.store[x];
    forall x, i | x in w.spaces && 0 <= i < ENTRIES ensures SlotOk(w', x, i) {
      assert SlotOk(w, x, i);
    }
    forall f | f in w'.owner ensures RoleOk(w', f) {
      assert RoleOk(w, f);
    }
  }

  lemma TableWriteWalk(w: World, d: nat, page: nat, e: Word, x: nat, p: nat)
    requires Inv(w) && d in w.spaces && page < PAGES && OwnsSlot(w.store[d][page / ENTRIES])
    requires x in w.spaces && p < PAGES
    ensures var t := FrameOf(w.store[d][page / ENTRIES]);
            t < MAX_PAGES &&
            Walk(Poked(w.store, t, page % ENTRIES, e), x, p) ==
              if x == d && p == page then Decode(e) else Walk(w.store, x, p)
  {
    TableIsPrivate(w, d, page / ENTRIES);
    if Present(w.store[x][p / ENTRIES]) {
      assert SlotOk(w, x, p / ENTRIES);
      assert RoleOk(w, FrameOf(w.store[x][p / ENTRIES]));
      assert p == p / ENTRIES * ENTRIES + p % ENTRIES;
    }
  }

  lemma TableWriteView(w: World, d: nat, page: nat, e: Word, x: nat)
    requires Inv(w) && d in w.spaces && page < PAGES && OwnsSlot(w.store[d][page / ENTRIES]) && x in w.spaces
    ensures var t := FrameOf(w.store[d][page / ENTRIES]);
            t < MAX_PAGES &&
            View(Poked(w.store, t, page % ENTRIES, e), x) ==
              if x == d then View(w.store, d)[page := Decode(e)] else View(w.store, x)
  {
    TableIsPrivate(w, d, page / ENTRIES);
    var store := Poked(w.store, FrameOf(w.store[d][page / ENTRIES]), page % ENTRIES, e);
    forall p | 0 <= p < PAGES
      ensures Walk(store, x, p) == if x == d && p == page then Decode(e) else Walk(w.store, x, p)
    {
      TableWriteWalk(w, d, page, e, x, p);
    }
  }

  /** Writing an entry of a USER table changes one page of the one space that owns the table. */
  lemma TableWrite(w: World, d: nat, page: nat, e: Word)
    requires Inv(w) && d in w.spaces && page < PAGES
    requires OwnsSlot(w.store[d][page / ENTRIES])
    ensures var t := FrameOf(w.store[d][page / ENTRIES]);
            t < MAX_PAGES &&
            var w' := w.(store := Poked(w.store, t, page % ENTRIES, e));
            Inv(w') && Views(w') == Views(w)[d := Views(w)[d][page := Decode(e)]]
  {
    hide View, Walk, SlotOk, RoleOk;
    TableWriteInv(w, d, page / ENTRIES, page % ENTRIES, e);
    forall x | x in w.spaces { TableWriteView(w, d, page, e, x); }
  }

  lemma SharedWriteWalk(w: World, d: nat, page: nat, e: Word, x: nat, p: nat)
    requires Inv(w) && d in w.spaces && page < PAGES && SharesSlot(w.store[d][page / ENTRIES])
    requires x in w.spaces && p < PAGES
    ensures var t := FrameOf(w.store[d][page / ENTRIES]);
            t < MAX_PAGES &&
            Walk(Poked(w.store, t, page % ENTRIES, e), x, p) ==
              if p == page then Restrict(w.store[d][page / ENTRIES], Decode(e)) else Walk(w.store, x, p)
  {
    assert SlotOk(w, d, page / ENTRIES) && SlotOk(w, x, page / ENTRIES) && SlotOk(w, x, p / ENTRIES);
    assert RoleOk(w, FrameOf(w.store[d][page / ENTRIES]));
    if Present(w.store[x][p / ENTRIES]) {
      assert RoleOk(w, FrameOf(w.store[x][p / ENTRIES]));
      assert p == p / ENTRIES * ENTRIES + p % ENTRIES;
    }
  }

  lemma SharedWriteInv(w: World, d: nat, slot: nat, j: nat, e: Word)
    requires Inv(w) && d in w.spaces && slot < ENTRIES && j < ENTRIES && SharesSlot(w.store[d][slot])
    ensures FrameOf(w.store[d][slot]) < MAX_PAGES
    ensures Inv(w.(store := Poked(w.store, FrameOf(w.store[d][slot]), j, e)))
    ensures forall x :: x in w.spaces ==> Poked(w.store, FrameOf(w.store[d][slot]), j, e)[x] == w.store[x]
  {
    assert SlotOk(w, d, slot) && RoleOk(w, FrameOf(w.store[d][slot]));
    var w' := w.(store := Poked(w.store, FrameOf(w.store[d][slot]), j, e));
    assert forall x :: x in w.spaces ==> w'.store[x] == w.store[x];
    forall x, i | x in w.spaces && 0 <= i < ENTRIES ensures SlotOk(w', x, i) {
      assert SlotOk(w, x, i);
    }
    forall f | f in w'.owner ensures RoleOk(w', f) {
      assert RoleOk(w, f);
    }
  }

  /** The same page is changed in every space. */
  ghost function Everywhere(views: map<nat, seq<Translation>>, page: nat, t: Translation): map<nat, seq<Translation>>
    requires forall x :: x in views ==> page < |views[x]|
  {
    map x | x in views :: views[x][page := t]
  }

  /** Writing an entry of a table that is shared changes the page in every space at once. */
  lemma SharedWrite(w: World, d: nat, page: nat, e: Word)
    requires Inv(w) && d in w.spaces && page < PAGES && SharesSlot(w.store[d][page / ENTRIES])
    ensures var t := FrameOf(w.store[d][page / ENTRIES]);
            t < MAX_PAGES &&
            var w' := w.(store := Poked(w.store, t, page % ENTRIES, e));
            Inv(w') && Views(w') == Everywhere(Views(w), page, Restrict(w.store[d][page / ENTRIES], Decode(e)))
  {
    SharedWriteInv(w, d, page / ENTRIES, page % ENTRIES, e);
    hide Walk, SlotOk, RoleOk, Restrict;
    var store := Poked(w.store, FrameOf(w.store[d][page / ENTRIES]), page % ENTRIES, e);
    var t := Restrict(w.store[d][page / ENTRIES], Decode(e));
    forall x | x in w.spaces ensures View(store, x) == View(w.store, x)[page := t] {
      forall p | 0 <= p < PAGES ensures Walk(store, x, p) == if p == page then t else Walk(w.store, x, p) {
        SharedWriteWalk(w, d, page, e, x, p);
      }
    }
    hide View;
  }

  ghost function EmptyTable(): (t: seq<Word>)
    ensures |t| == ENTRIES && forall i :: 0 <= i < ENTRIES ==> t[i] == 0
  {
    seq(ENTRIES, i => 0)
  }

  /** Hooking an empty table into an absent slot of a space. */
  ghost function WithTable(w: World, d: nat, slot: nat, t: nat): World
    requires WellFormed(w.store) && d < MAX_PAGES && slot < ENTRIES && t < MAX_PAGES
  {
    var cleared := w.store[t := EmptyTable()];
    w.(store := Poked(cleared, d, slot, Entry(t, 7)),
       frames := w.frames.(held := w.frames.held + {t}),
       owner := w.owner[t := Table(d, slot)])
  }

  lemma AddTableInv(w: World, d: nat, slot: nat, t: nat)
    requires Inv(w) && d in w.spaces && slot < ENTRIES
    requires !Present(w.store[d][slot])
    requires t < w.frames.total && t !in w.frames.held
    ensures Inv(WithTable(w, d, slot, t))
  {
    FreshIsUnowned(w, t);
    EntryFields(t, 7);
    var w' := WithTable(w, d, slot, t);
    assert forall x :: x in w.spaces && x != d ==> w'.store[x] == w.store[x];
    assert w'.store[d] == w.store[d][slot := Entry(t, 7)];
    forall x, i | x in w.spaces && 0 <= i < ENTRIES ensures SlotOk(w', x, i) {
      assert SlotOk(w, x, i) && SlotOk(w, w.kernel, i);
    }
    forall f | f in w'.owner ensures RoleOk(w', f) {
      assert f != t ==> RoleOk(w, f);
    }
  }

  lemma AddTableView(w: World, d: nat, slot: nat, t: nat, x: nat)
    requires Inv(w) && d in w.spaces && slot < ENTRIES && x in w.spaces
    requires !Present(w.store[d][slot])
    requires t < w.frames.total && t !in w.frames.held
    ensures View(WithTable(w, d, slot, t).store, x) == View(w.store, x)
  {
    FreshIsUnowned(w, t);
    EntryFields(t, 7);
    var store := WithTable(w, d, slot, t).store;
    forall p | 0 <= p < PAGES ensures Walk(store, x, p) == Walk(w.store, x, p) {
      if Present(w.store[x][p / ENTRIES]) {
        assert SlotOk(w, x, p / ENTRIES);
        assert RoleOk(w, FrameOf(w.store[x][p / ENTRIES]));
        assert FrameOf(w.store[x][p / ENTRIES]) !in w.spaces;
      }
    }
  }

  /** Hooking in an empty table keeps the invariant and changes no page of any space. */
  lemma AddTable(w: World, d: nat, slot: nat, t: nat)
    requires Inv(w) && d in w.spaces && slot < ENTRIES
    requires !Present(w.store[d][slot])
    requires t < w.frames.total && t !in w.frames.held
    ensures Inv(WithTable(w, d, slot, t)) && Views(WithTable(w, d, slot, t)) == Views(w)
  {
    AddTableInv(w, d, slot, t);
    forall x | x in w.spaces { AddTableView(w, d, slot, t, x); }
  }

  /** The world once a slot that had no table has got one, if a frame is free for it. */
  ghost function Tabled(w: World, d: nat, slot: nat): World
    requires Inv(w) && d in w.spaces && slot < ENTRIES
  {
    if Present(w.store[d][slot]) || LowestFree(w.frames) == w.frames.total then w
    else WithTable(w, d, slot, LowestFree(w.frames))
  }

  lemma TabledKeeps(w: World, d: nat, slot: nat)
    requires Inv(w) && d in w.spaces && slot < ENTRIES && Confined(w, d, slot)
    ensures Inv(Tabled(w, d, slot)) && Views(Tabled(w, d, slot)) == Views(w)
    ensures Present(w.store[d][slot]) || LowestFree(w.frames) < w.frames.total ==>
              OwnsSlot(Tabled(w, d, slot).store[d][slot])
  {
    if !Present(w.store[d][slot]) && LowestFree(w.frames) < w.frames.total {
      AddTable(w, d, slot, LowestFree(w.frames));
      FreshIsUnowned(w, LowestFree(w.frames));
      EntryFields(LowestFree(w.frames), 7);
    }
  }

  /** Giving out, or taking back, a frame that is not a paging structure disturbs nothing. */
  lemma ForeignFrames(w: World, frames: Frames)
    requires Inv(w) && Sound(frames) && frames.total == w.frames.total
    requires forall f :: f in w.frames.held && (f in w.owner || f == 0) ==> f in frames.held
    ensures Inv(w.(frames := frames)) && Views(w.(frames := frames)) == Views(w)
  {
    var w' := w.(frames := frames);
    assert forall d, i :: d in w.spaces && 0 <= i < ENTRIES ==> SlotOk(w, d, i) ==> SlotOk(w', d, i);
    forall f | f in w.owner ensures RoleOk(w', f) {
      assert RoleOk(w, f);
    }
    assert Views(w') == Views(w);
  }

  // ---------- Building a space ----------

  /** How one slot of a new directory relates to the kernel's slot. */
  ghost predicate SlotCopied(w: World, store: Store, nd: nat, own: map<nat, Role>, j: nat)
    requires WellFormed(w.store) && WellFormed(store) && w.kernel < MAX_PAGES && nd < MAX_PAGES && j < ENTRIES
  {
    var e := w.store[w.kernel][j];
    var c := store[nd][j];
    if !Present(e) then c == 0
    else if !User(e) then c == e
    else
      && c % PAGE_SIZE == e % PAGE_SIZE
      && FrameOf(c) in own && own[FrameOf(c)] == Table(nd, j)
      && FrameOf(c) < MAX_PAGES && FrameOf(e) < MAX_PAGES
      && store[FrameOf(c)] == w.store[FrameOf(e)]
  }

  /** The number of USER slots among the first n of a directory. */
  function UserSlots(row: seq<Word>, n: nat): nat
    requires n <= |row|
  {
    if n == 0 then 0 else UserSlots(row, n - 1) + if OwnsSlot(row[n - 1]) then 1 else 0
  }

  /** The frames taken for a new directory nd: itself, and one table for each USER slot below i. */
  ghost predicate BuildBooks(w: World, row: seq<Word>, frames: Frames, nd: nat, own: map<nat, Role>, i: nat)
    requires WellFormed(w.store) && w.kernel < MAX_PAGES
  {
    && |row| == ENTRIES && i <= ENTRIES
    && frames == w.frames.(held := w.frames.held + own.Keys)
    && own.Keys !! w.frames.held && |own| == 1 + UserSlots(w.store[w.kernel], i)
    && (forall f :: f in own ==> 0 < f < w.frames.total)
    && nd in own && own[nd] == Directory && BuildRoles(w.store[w.kernel], row, nd, own, i)
  }

  /** The others are tables, each in a USER slot of the kernel that has been filled. */
  ghost predicate BuildRoles(kernelRow: seq<Word>, row: seq<Word>, nd: nat, own: map<nat, Role>, i: nat)
    requires |kernelRow| == |row| == ENTRIES && i <= ENTRIES
  {
    forall f :: f in own && f != nd ==>
      && own[f].Table? && own[f].dir == nd && own[f].slot < i
      && OwnsSlot(kernelRow[own[f].slot]) && FrameOf(row[own[f].slot]) == f
  }

  /**
    The state while the first i slots of a new directory nd have been filled: the world w is untouched,
    and the frames taken since, `own`, are nd and one table for each USER slot copied.
   */
  ghost predicate Building(w: World, store: Store, frames: Frames, nd: nat, own: map<nat, Role>, i: nat) {
    && Inv(w) && KeepsOwned(w, store) && nd < MAX_PAGES
    && BuildBooks(w, store[nd], frames, nd, own, i)
    && (forall j :: 0 <= j < i ==> SlotCopied(w, store, nd, own, j))
  }

  /** The flags a copied slot keeps decide everything the walk asks of it. */
  lemma SameFlags(a: Word, b: Word)
    requires a % PAGE_SIZE == b % PAGE_SIZE
    ensures Present(a) == Present(b) && Writable(a) == Writable(b) && User(a) == User(b)
  {
    EntryFields(FrameOf(a), a % PAGE_SIZE);
    EntryFields(FrameOf(b), b % PAGE_SIZE);
  }

  ghost function WithSpace(w: World, store: Store, frames: Frames, nd: nat, own: map<nat, Role>): World {
    World(store, frames, w.kernel, w.spaces + {nd}, w.owner + own)
  }

  lemma CopiedSlotOk(w: World, store: Store, frames: Frames, nd: nat, own: map<nat, Role>, i: nat)
    requires Building(w, store, frames, nd, own, ENTRIES) && i < ENTRIES
    requires forall f :: f in own ==> f !in w.owner && f !in w.spaces
    ensures SlotOk(WithSpace(w, store, frames, nd, own), nd, i)
  {
    var e := w.store[w.kernel][i];
    assert SlotOk(w, w.kernel, i) && SlotCopied(w, store, nd, own, i) && RoleOk(w, w.kernel);
    if Present(e) {
      SameFlags(store[nd][i], e);
    }
  }

  lemma CopiedRoleOk(w: World, store: Store, frames: Frames, nd: nat, own: map<nat, Role>, f: nat)
    requires Building(w, store, frames, nd, own, ENTRIES) && f in own
    ensures w.kernel < MAX_PAGES && nd < MAX_PAGES
    ensures forall d :: d in w.spaces ==> d < MAX_PAGES
    ensures RoleOk(WithSpace(w, store, frames, nd, own), f)
  {
    if f != nd {
      assert SlotCopied(w, store, nd, own, own[f].slot);
      SameFlags(store[nd][own[f].slot], w.store[w.kernel][own[f].slot]);
    }
  }

  lemma CopiedWalk(w: World, store: Store, frames: Frames, nd: nat, own: map<nat, Role>, p: nat)
    requires Building(w, store, frames, nd, own, ENTRIES) && p < PAGES
    ensures nd < MAX_PAGES && Walk(store, nd, p) == Walk(w.store, w.kernel, p)
  {
    assert SlotOk(w, w.kernel, p / ENTRIES) && SlotCopied(w, store, nd, own, p / ENTRIES);
    var e := w.store[w.kernel][p / ENTRIES];
    if Present(e) {
      assert RoleOk(w, FrameOf(e));
      SameFlags(store[nd][p / ENTRIES], e);
    }
  }

  lemma FinishSpaceSlots(w: World, store: Store, frames: Frames, nd: nat, own: map<nat, Role>, d: nat, i: nat)
    requires Building(w, store, frames, nd, own, ENTRIES)
    requires (d in w.spaces || d == nd) && i < ENTRIES
    ensures nd < MAX_PAGES && d < MAX_PAGES && SlotOk(WithSpace(w, store, frames, nd, own), d, i)
  {
    forall f | f in own ensures f !in w.owner && f !in w.spaces {
      FreshIsUnowned(w, f);
    }
    AgreeOnOwned(w, store);
    assert SlotOk(w.(store := store), w.kernel, i);
    if d == nd {
      CopiedSlotOk(w, store, frames, nd, own, i);
    } else {
      assert SlotOk(w.(store := store), d, i);
    }
  }

  lemma FinishSpaceRoles(w: World, store: Store, frames: Frames, nd: nat, own: map<nat, Role>, f: nat)
    requires Building(w, store, frames, nd, own, ENTRIES)
    requires f in w.owner || f in own
    ensures nd < MAX_PAGES && forall d :: d in w.spaces ==> d < MAX_PAGES
    ensures RoleOk(WithSpace(w, store, frames, nd, own), f)
  {
    if f in own {
      CopiedRoleOk(w, store, frames, nd, own, f);
    } else {
      AgreeOnOwned(w, store);
      assert RoleOk(w.(store := store), f);
    }
  }

  lemma FinishSpaceInv(w: World, store: Store, frames: Frames, nd: nat, own: map<nat, Role>)
    requires Building(w, store, frames, nd, own, ENTRIES)
    ensures Inv(WithSpace(w, store, frames, nd, own))
  {
    var w' := WithSpace(w, store, frames, nd, own);
    forall d | d in w'.spaces ensures d < MAX_PAGES && d in w'.owner && w'.owner[d] == Directory {
      assert d in w.spaces ==> d !in own by {
        if d in own { FreshIsUnowned(w, d); }
      }
    }
    forall d, i | d in w'.spaces && 0 <= i < ENTRIES ensures SlotOk(w', d, i) {
      FinishSpaceSlots(w, store, frames, nd, own, d, i);
    }
    forall f | f in w'.owner ensures RoleOk(w', f) {
      FinishSpaceRoles(w, store, frames, nd, own, f);
    }
  }

  lemma FinishSpaceView(w: World, store: Store, frames: Frames, nd: nat, own: map<nat, Role>, d: nat)
    requires Building(w, store, frames, nd, own, ENTRIES)
    requires d in w.spaces || d == nd
    ensures d < MAX_PAGES && View(store, d) == View(w.store, if d == nd then w.kernel else d)
  {
    FreshIsUnowned(w, nd);
    if d == nd {
      forall p | 0 <= p < PAGES ensures Walk(store, nd, p) == Walk(w.store, w.kernel, p) {
        CopiedWalk(w, store, frames, nd, own, p);
      }
    } else {
      AgreeOnOwned(w, store);
      assert Views(w.(store := store))[d] == Views(w)[d];
    }
  }

  /** A finished directory is a new space that maps exactly what the kernel maps. */
  lemma FinishSpace(w: World, store: Store, frames: Frames, nd: nat, own: map<nat, Role>)
    requires Building(w, store, frames, nd, own, ENTRIES)
    ensures var w' := WithSpace(w, store, frames, nd, own);
            Inv(w') && Views(w') == Views(w)[nd := Views(w)[w.kernel]]
  {
    FinishSpaceInv(w, store, frames, nd, own);
    forall d | d in w.spaces + {nd} { FinishSpaceView(w, store, frames, nd, own, d); }
  }

  // ---------- Removing a space ----------

  /** The frames a space owns: its directory and its USER tables. */
  ghost function OwnedBy(w: World, d: nat): set<nat> {
    set f | f in w.owner && (f == d || (w.owner[f].Table? && w.owner[f].dir == d))
  }

  ghost function WithoutSpace(w: World, d: nat): World {
    w.(frames := w.frames.(held := w.frames.held - OwnedBy(w, d)),
       spaces := w.spaces - {d},
       owner := w.owner - OwnedBy(w, d))
  }

  lemma RemoveSpace(w: World, d: nat)
    requires Inv(w) && d in w.spaces && d != w.kernel
    ensures Inv(WithoutSpace(w, d)) && Views(WithoutSpace(w, d)) == Views(w) - {d}
    ensures OwnedBy(w, d) <= w.frames.held
  {
    var w' := WithoutSpace(w, d);
    forall f | f in OwnedBy(w, d) ensures f in w.frames.held && f != 0 {
      assert RoleOk(w, f);
    }
    assert RoleOk(w, d);
    forall x, i | x in w'.spaces && 0 <= i < ENTRIES ensures SlotOk(w', x, i) {
      assert SlotOk(w, x, i);
    }
    forall f | f in w'.owner ensures RoleOk(w', f) {
      assert RoleOk(w, f);
    }
    assert Views(w') == Views(w) - {d};
  }
}
