/**
  The image of a program while it is loaded (src/fs/elf.cpp:94-140): which pages have been mapped to fresh frames,
  which bytes have been written, and what every address of these pages therefore shows.
 */
module ElfImage {
  import opened Common
  import opened FrameAllocator
  import opened PageTables
  import opened AddressSpaces

  // ---------- Bytes in memory words ----------

  /** Byte k of a little-endian word. */
  function GetByte(x: Word, k: nat): Byte
    requires k < 4
  {
    if k == 0 then x % 256 else if k == 1 then x / 256 % 256 else if k == 2 then x / 65536 % 256 else x / 16777216
  }

  function WordOf(b0: Byte, b1: Byte, b2: Byte, b3: Byte): Word {
    b0 + 256 * b1 + 65536 * b2 + 16777216 * b3
  }

  function PutByte(x: Word, k: nat, b: Byte): Word
    requires k < 4
  {
    WordOf(if k == 0 then b else GetByte(x, 0), if k == 1 then b else GetByte(x, 1),
           if k == 2 then b else GetByte(x, 2), if k == 3 then b else GetByte(x, 3))
  }

  lemma BytesOfWord(b0: Byte, b1: Byte, b2: Byte, b3: Byte)
    ensures var x := WordOf(b0, b1, b2, b3);
            GetByte(x, 0) == b0 && GetByte(x, 1) == b1 && GetByte(x, 2) == b2 && GetByte(x, 3) == b3
  {
    Low256(b1 + 256 * b2 + 65536 * b3, b0);
    Low256(b2 + 256 * b3, b1);
    Low256(b3, b2);
    High65536(b2 + 256 * b3, b0 + 256 * b1);
    High16777216(b3, b0 + 256 * b1 + 65536 * b2);
  }

  lemma Low256(q: nat, r: nat)
    requires r < 256
    ensures (256 * q + r) / 256 == q && (256 * q + r) % 256 == r
  {
  }

  lemma High65536(q: nat, r: nat)
    requires r < 65536
    ensures (65536 * q + r) / 65536 == q
  {
  }

  lemma High16777216(q: nat, r: nat)
    requires r < 16777216
    ensures (16777216 * q + r) / 16777216 == q
  {
  }

  lemma PutThenGet(x: Word, k: nat, b: Byte, j: nat)
    requires k < 4 && j < 4
    ensures GetByte(PutByte(x, k, b), j) == if j == k then b else GetByte(x, j)
  {
    BytesOfWord(if k == 0 then b else GetByte(x, 0), if k == 1 then b else GetByte(x, 1),
                if k == 2 then b else GetByte(x, 2), if k == 3 then b else GetByte(x, 3));
  }

  /** Page, word and byte within the word determine an address. */
  lemma SameAddress(a: nat, c: nat)
    requires a / PAGE_SIZE == c / PAGE_SIZE && a % PAGE_SIZE / 4 == c % PAGE_SIZE / 4 && a % 4 == c % 4
    ensures a == c
  {
    assert a % 4 == a % PAGE_SIZE % 4 && c % 4 == c % PAGE_SIZE % 4;
  }

  /** What a load from virtual address a yields in a space, or -1 for a page fault. */
  ghost function ByteAt(store: Store, dir: nat, a: nat): int
    requires WellFormed(store) && dir < MAX_PAGES && a < 0x1_0000_0000
  {
    match Walk(store, dir, a / PAGE_SIZE)
    case Fault => -1
    case To(f, _, _) => if f < MAX_PAGES then GetByte(store[f][a % PAGE_SIZE / 4], a % 4) else -1
  }

  /** The byte of frame f at the place that address a has in its page. */
  ghost function FrameByte(store: Store, f: nat, a: nat): Byte
    requires WellFormed(store) && f < MAX_PAGES
  {
    GetByte(store[f][a % PAGE_SIZE / 4], a % 4)
  }

  // ---------- The image under construction ----------

  /** Each page of the image has a frame of its own that is no paging structure. */
  ghost predicate Image(w: World, dir: nat, img: map<nat, nat>)
    requires Inv(w) && dir in w.spaces
  {
    && (forall p {:trigger p in img} :: p in img ==>
          && p < PAGES && img[p] < MAX_PAGES && img[p] in w.frames.held && img[p] !in w.owner
          && Views(w)[dir][p].To? && Views(w)[dir][p].frame == img[p])
    && (forall p, q :: p in img && q in img && img[p] == img[q] ==> p == q)
  }

  /** An address of the image shows the byte written there, or what the frame held before the load. */
  ghost predicate ShowsAt(store0: Store, w: World, dir: nat, img: map<nat, nat>, bytes: map<nat, Byte>, a: nat)
    requires WellFormed(store0) && Inv(w) && dir in w.spaces && Image(w, dir, img)
    requires a < 0x1_0000_0000 && a / PAGE_SIZE in img
  {
    ByteAt(w.store, dir, a) == if a in bytes then bytes[a] else FrameByte(store0, img[a / PAGE_SIZE], a)
  }

  ghost predicate Shows(store0: Store, w: World, dir: nat, img: map<nat, nat>, bytes: map<nat, Byte>)
    requires WellFormed(store0) && Inv(w) && dir in w.spaces && Image(w, dir, img)
  {
    && (forall a {:trigger a in bytes} :: a in bytes ==> a < 0x1_0000_0000 && a / PAGE_SIZE in img)
    && (forall a: nat {:trigger ShowsAt(store0, w, dir, img, bytes, a)} ::
          a < 0x1_0000_0000 && a / PAGE_SIZE in img ==> ShowsAt(store0, w, dir, img, bytes, a))
  }

  ghost function Stored(w: World, f: nat, a: nat, b: Byte): World
    requires WellFormed(w.store) && f < MAX_PAGES
  {
    var i := a % PAGE_SIZE / 4;
    w.(store := Poked(w.store, f, i, PutByte(w.store[f][i], a % 4, b)))
  }

  /** A store into an image page is no store into a paging structure. */
  lemma StoreOutside(w: World, dir: nat, img: map<nat, nat>, a: nat, b: Byte)
    requires Inv(w) && dir in w.spaces && Image(w, dir, img)
    requires a < 0x1_0000_0000 && a / PAGE_SIZE in img
    ensures img[a / PAGE_SIZE] < MAX_PAGES
    ensures var w' := Stored(w, img[a / PAGE_SIZE], a, b);
            && Inv(w') && Views(w') == Views(w) && Image(w', dir, img)
            && w'.store[w.kernel] == w.store[w.kernel] && w'.store[dir] == w.store[dir]
            && forall f :: 0 <= f < MAX_PAGES && f !in w.frames.held ==> w'.store[f] == w.store[f]
  {
    var w' := Stored(w, img[a / PAGE_SIZE], a, b);
    assert RoleOk(w, w.kernel) && RoleOk(w, dir);
    AgreeOnOwned(w, w'.store);
  }

  /** A store through an image page changes the byte at that address and no other byte of the image. */
  lemma StoreKeeps(store0: Store, w: World, dir: nat, img: map<nat, nat>, bytes: map<nat, Byte>, a: nat, b: Byte)
    requires WellFormed(store0) && Inv(w) && dir in w.spaces && Image(w, dir, img) && Shows(store0, w, dir, img, bytes)
    requires a < 0x1_0000_0000 && a / PAGE_SIZE in img
    ensures img[a / PAGE_SIZE] < MAX_PAGES
    ensures var w' := Stored(w, img[a / PAGE_SIZE], a, b);
            Inv(w') && Image(w', dir, img) && Shows(store0, w', dir, img, bytes[a := b])
  {
    hide SlotOk, RoleOk, View, Walk, Stored, ByteAt, FrameByte;
    var w' := Stored(w, img[a / PAGE_SIZE], a, b);
    StoreOutside(w, dir, img, a, b);
    forall c: nat | c < 0x1_0000_0000 && c / PAGE_SIZE in img ensures ShowsAt(store0, w', dir, img, bytes[a := b], c) {
      assert ShowsAt(store0, w, dir, img, bytes, c);
      StoreAt(w, dir, img, a, b, c);
    }
  }

  lemma StoreAt(w: World, dir: nat, img: map<nat, nat>, a: nat, b: Byte, c: nat)
    requires Inv(w) && dir in w.spaces && Image(w, dir, img)
    requires a < 0x1_0000_0000 && a / PAGE_SIZE in img && c < 0x1_0000_0000 && c / PAGE_SIZE in img
    requires var w' := Stored(w, img[a / PAGE_SIZE], a, b); Inv(w') && Views(w') == Views(w)
    ensures ByteAt(Stored(w, img[a / PAGE_SIZE], a, b).store, dir, c) == if c == a then b else ByteAt(w.store, dir, c)
  {
    var w' := Stored(w, img[a / PAGE_SIZE], a, b);
    var p := c / PAGE_SIZE;
    assert Views(w')[dir][p] == Walk(w'.store, dir, p) && Views(w)[dir][p] == Walk(w.store, dir, p);
    if img[p] == img[a / PAGE_SIZE] && c % PAGE_SIZE / 4 == a % PAGE_SIZE / 4 {
      PutThenGet(w.store[img[p]][a % PAGE_SIZE / 4], a % 4, b, c % 4);
      if c % 4 == a % 4 { SameAddress(a, c); }
    }
  }

  /** The bytes that do not lie on this page. */
  ghost function Dropped(bytes: map<nat, Byte>, page: nat): map<nat, Byte> {
    map a | a in bytes && a / PAGE_SIZE != page :: bytes[a]
  }

  /** A fresh frame f is mapped at a page of space dir, which may have been part of the image before. */
  ghost predicate MappedFresh(store0: Store, w: World, w': World, dir: nat, img: map<nat, nat>, page: nat, f: nat,
        t: Translation)
  {
    && WellFormed(store0) && Inv(w) && Inv(w') && dir in w.spaces && FrameBooks(w, w', dir) && KeepsForeign(w, w')
    && page < PAGES && t.To? && t.frame == f && Views(w') == MapAbstract(Views(w), dir, page, t)
    && f < MAX_PAGES && f in w.frames.held && f !in w.owner && (forall p :: p in img ==> img[p] != f)
    && w.store[f] == store0[f]
  }

  /** What was written to the page before is gone; the page now shows what the frame holds. */
  lemma MapKeeps(store0: Store, w: World, w': World, dir: nat, img: map<nat, nat>, bytes: map<nat, Byte>, page: nat,
        f: nat, t: Translation)
    requires MappedFresh(store0, w, w', dir, img, page, f, t) && Image(w, dir, img) && Shows(store0, w, dir, img, bytes)
    ensures Image(w', dir, img[page := f]) && Shows(store0, w', dir, img[page := f], Dropped(bytes, page))
  {
    hide SlotOk, RoleOk, View, Walk;
    MapKeepsImage(store0, w, w', dir, img, page, f, t);
    forall a: nat | a < 0x1_0000_0000 && a / PAGE_SIZE in img[page := f]
      ensures ShowsAt(store0, w', dir, img[page := f], Dropped(bytes, page), a)
    {
      if a / PAGE_SIZE != page { assert ShowsAt(store0, w, dir, img, bytes, a); }
      MapShowsAt(store0, w, w', dir, img, page, f, t, a);
      hide ByteAt, FrameByte, MappedFresh;
    }
  }

  lemma MapKeepsImage(store0: Store, w: World, w': World, dir: nat, img: map<nat, nat>, page: nat, f: nat,
        t: Translation)
    requires MappedFresh(store0, w, w', dir, img, page, f, t) && Image(w, dir, img)
    ensures Image(w', dir, img[page := f])
  {
    hide SlotOk, RoleOk, View, Walk;
    var img' := img[page := f];
    forall p | p in img' ensures img'[p] !in w'.owner {}
  }

  lemma MapShowsAt(store0: Store, w: World, w': World, dir: nat, img: map<nat, nat>, page: nat, f: nat, t: Translation,
        a: nat)
    requires MappedFresh(store0, w, w', dir, img, page, f, t) && Image(w, dir, img)
    requires a < 0x1_0000_0000 && a / PAGE_SIZE in img[page := f]
    ensures dir < MAX_PAGES
    ensures ByteAt(w'.store, dir, a) ==
            if a / PAGE_SIZE == page then FrameByte(store0, f, a) else ByteAt(w.store, dir, a)
  {
    hide SlotOk, RoleOk, View, Walk, GetByte;
    var p := a / PAGE_SIZE;
    assert Views(w')[dir][p] == Walk(w'.store, dir, p) && Views(w)[dir][p] == Walk(w.store, dir, p);
    assert f !in w'.owner && (p != page ==> img[p] !in w'.owner);
  }

  // ---------- A load ----------

  /** The world before a load: the pages of every space, the shared slots, memory and frames. */
  datatype Base = Base(views: map<nat, seq<Translation>>, shared: set<nat>, store: Store, frames: Frames)

  ghost function BaseOf(w: World): Base
    requires Inv(w)
  {
    var shared := set i: nat | 0 <= i < ENTRIES && SharesSlot(w.store[w.kernel][i]);
    Base(Views(w), shared, w.store, w.frames)
  }

  /** The frames that are still free, and memory in them, are as they were; the image is in frames that were free. */
  ghost predicate Untouched(base: Base, w: World, img: map<nat, nat>) {
    && WellFormed(base.store) && WellFormed(w.store)
    && w.frames.total == base.frames.total && base.frames.held <= w.frames.held
    && (forall p :: p in img ==> img[p] !in base.frames.held && img[p] < base.frames.total)
    && (forall f {:trigger w.store[f]} ::
          0 <= f < MAX_PAGES && f < w.frames.total && f !in w.frames.held ==> w.store[f] == base.store[f])
  }

  /**
    The state of a load into space dir: other spaces are as they were, the pages in img are backed by fresh frames
    of their own, and every address in them shows what was written there or what its frame held before.
   */
  ghost predicate Loading(base: Base, w: World, dir: nat, img: map<nat, nat>, bytes: map<nat, Byte>) {
    && Inv(w) && dir in w.spaces && w.spaces == base.views.Keys && Untouched(base, w, img)
    && (forall i :: 0 <= i < ENTRIES ==> (SharesSlot(w.store[w.kernel][i]) <==> i in base.shared))
    && (forall x :: x in w.spaces && x != dir ==> Views(w)[x] == base.views[x])
    && Image(w, dir, img) && Shows(base.store, w, dir, img, bytes)
  }

  lemma LoadingStore(base: Base, w: World, dir: nat, img: map<nat, nat>, bytes: map<nat, Byte>, a: nat, b: Byte)
    requires Loading(base, w, dir, img, bytes) && a < 0x1_0000_0000 && a / PAGE_SIZE in img
    ensures img[a / PAGE_SIZE] < MAX_PAGES
    ensures Loading(base, Stored(w, img[a / PAGE_SIZE], a, b), dir, img, bytes[a := b])
    ensures Same(w, Stored(w, img[a / PAGE_SIZE], a, b), dir)
  {
    StoreOutside(w, dir, img, a, b);
    StoreKeeps(base.store, w, dir, img, bytes, a, b);
    hide Shows, Image;
  }

  lemma LoadingTake(base: Base, w: World, dir: nat, img: map<nat, nat>, bytes: map<nat, Byte>)
    requires Loading(base, w, dir, img, bytes) && LowestFree(w.frames) < w.frames.total
    ensures Loading(base, w.(frames := TakeState(w.frames)), dir, img, bytes)
    ensures var f := LowestFree(w.frames);
            && WellFormed(base.store) && f != 0 && f < MAX_PAGES && f !in w.owner
            && f !in base.frames.held && f < base.frames.total
            && w.store[f] == base.store[f] && forall p :: p in img ==> img[p] != f
  {
    ForeignFrames(w, TakeState(w.frames));
    FreshIsUnowned(w, LowestFree(w.frames));
    var w' := w.(frames := TakeState(w.frames));
    forall a: nat | a < 0x1_0000_0000 && a / PAGE_SIZE in img ensures ShowsAt(base.store, w', dir, img, bytes, a) {
      assert ShowsAt(base.store, w, dir, img, bytes, a);
    }
    hide ByteAt, FrameByte, LowestFreeFrom;
  }

  lemma LoadingMap(base: Base, w: World, w': World, dir: nat, img: map<nat, nat>, bytes: map<nat, Byte>, page: nat,
        f: nat, t: Translation)
    requires Loading(base, w, dir, img, bytes) && MappedFresh(base.store, w, w', dir, img, page, f, t)
    requires f !in base.frames.held && f < base.frames.total
    ensures Loading(base, w', dir, img[page := f], Dropped(bytes, page))
  {
    MapKeeps(base.store, w, w', dir, img, bytes, page, f, t);
    hide Shows, Image;
    forall g | 0 <= g < MAX_PAGES && g < w'.frames.total && g !in w'.frames.held ensures w'.store[g] == base.store[g] {
      FreshIsUnowned(w', g);
      assert w.store[g] == base.store[g];
    }
  }

  /** Which slots are shared with the kernel never changes, so a slot that may be mapped stays so. */
  lemma StillConfined(base: Base, w: World, dir: nat, img: map<nat, nat>, bytes: map<nat, Byte>, slot: nat)
    requires Loading(base, w, dir, img, bytes) && slot < ENTRIES
    ensures Confined(w, dir, slot) <==> slot !in base.shared
  {
    assert SlotOk(w, dir, slot);
  }

  lemma LoadingStart(w: World, dir: nat)
    requires Inv(w) && dir in w.spaces
    ensures Loading(BaseOf(w), w, dir, map[], map[])
  {
  }

  // ---------- Slots without a table ----------

  ghost function AbsentSlots(w: World, dir: nat): set<nat>
    requires WellFormed(w.store) && dir < MAX_PAGES
  {
    set i: nat | 0 <= i < ENTRIES && !Present(w.store[dir][i])
  }

  /** No translation differs, and no slot of the space has got or lost a table. */
  ghost predicate Same(w: World, w': World, dir: nat) {
    Inv(w) && Inv(w') && Views(w') == Views(w) && dir < MAX_PAGES && AbsentSlots(w', dir) == AbsentSlots(w, dir)
  }

  lemma SameStart(w: World, dir: nat)
    requires Inv(w) && dir in w.spaces
    ensures Same(w, w, dir)
  {
  }

  /** Mapping a page gives its slot a table, if there is a frame for it, and no other. */
  lemma MappedSlots(w: World, d: nat, page: nat, e: Word)
    requires Inv(w) && d in w.spaces && page < PAGES && Confined(w, d, page / ENTRIES)
    requires Present(w.store[d][page / ENTRIES]) || LowestFree(w.frames) < w.frames.total
    ensures Inv(Mapped(w, d, page, e)) && AbsentSlots(Mapped(w, d, page, e), d) == AbsentSlots(w, d) - {page / ENTRIES}
  {
    MappedKeeps(w, d, page, e);
    var w1, slot := Tabled(w, d, page / ENTRIES), page / ENTRIES;
    TabledKeeps(w, d, slot);
    TableIsPrivate(w1, d, slot);
    if !Present(w.store[d][slot]) { FreshIsUnowned(w, LowestFree(w.frames)); }
    hide Inv, Views, LowestFreeFrom, MapAbstract, FrameBooks;
    assert Mapped(w, d, page, e).store[d] == w1.store[d];
    assert forall i :: 0 <= i < ENTRIES && i != slot ==> w1.store[d][i] == w.store[d][i];
  }
}
