/**
  Whole runs of the virtual memory manager: any number of spaces created, mapped, unmapped and destroyed,
  while other parts of the kernel take and give back frames of their own.
 */
module AddressSpaceRuns {
  import opened FrameAllocator
  import opened PageTables
  import opened AddressSpaces

  datatype VmOp =
    | Create
    | Destroy(space: nat)
    | Map(space: nat, virt: Word, phys: Word, flags: Word)
    | Unmap(space: nat, virt: Word)
    | TakeFrame
    | GiveFrame(addr: nat)

  /**
    What callers owe: a space handle is live, the kernel's own space is not destroyed, pages are mapped
    only in slots that are absent or USER, and nobody gives back a paging structure or frame 0.
   */
  ghost predicate Legal(w: World, op: VmOp)
    requires Inv(w)
  {
    match op
    case Create => true
    case Destroy(s) => s == 0 || (Live(w, s) && s / PAGE_SIZE != w.kernel)
    case Map(s, virt, _, _) => Live(w, s) && Confined(w, s / PAGE_SIZE, virt / 0x400000)
    case Unmap(s, virt) => Live(w, s) && Confined(w, s / PAGE_SIZE, virt / 0x400000)
    case TakeFrame => true
    case GiveFrame(a) => a / PAGE_SIZE !in w.owner && a >= PAGE_SIZE
  }

  /** The specification: spaces are page maps and nothing else. */
  ghost function AbstractStep(views: map<nat, seq<Translation>>, kernel: nat, op: VmOp, r: int)
      : map<nat, seq<Translation>>
    requires kernel in views && forall d :: d in views ==> |views[d]| == PAGES
  {
    match op
    case Create => if r <= 0 then views else views[r / PAGE_SIZE := views[kernel]]
    case Destroy(s) => if s == 0 then views else views - {s / PAGE_SIZE}
    case Map(s, virt, phys, flags) =>
      if r != 0 || s / PAGE_SIZE !in views then views
      else MapAbstract(views, s / PAGE_SIZE, virt / PAGE_SIZE, Decode(Entry(phys / PAGE_SIZE, flags % PAGE_SIZE)))
    case Unmap(s, virt) =>
      if s / PAGE_SIZE !in views then views else MapAbstract(views, s / PAGE_SIZE, virt / PAGE_SIZE, Fault)
    case TakeFrame => views
    case GiveFrame(_) => views
  }

  /** Whose frames an operation may move. */
  ghost predicate FramesStep(w: World, op: VmOp, r: int, w': World)
    requires Inv(w) && Inv(w')
  {
    match op
    case Create =>
      if r == 0 then w'.frames == w.frames && w'.owner == w.owner && w'.spaces == w.spaces
      else r > 0 && Created(w, w', r)
    case Destroy(s) => if s == 0 then w' == w else w' == WithoutSpace(w, s / PAGE_SIZE)
    case Map(s, _, _, _) => FrameBooks(w, w', s / PAGE_SIZE)
    case Unmap(s, _) => FrameBooks(w, w', s / PAGE_SIZE)
    case TakeFrame => w' == w.(frames := TakeState(w.frames)) && r == TakeResult(w.frames)
    case GiveFrame(a) => w' == w.(frames := GiveState(w.frames, a))
  }

  ghost predicate Stepped(w: World, op: VmOp, r: int, w': World)
    requires Inv(w)
  {
    && Inv(w') && w'.kernel == w.kernel && SameShared(w, w')
    && Views(w') == AbstractStep(Views(w), w.kernel, op, r)
    && FramesStep(w, op, r, w')
  }

  /** Every operation the classes perform is a step of the specification. */
  method Perform(vm: VirtualMemory, op: VmOp) returns (r: int)
    requires vm.Valid() && Legal(vm.State(), op)
    modifies vm, vm.ram.words, vm.pmm, vm.pmm.bitmap
    ensures vm.Valid() && Stepped(old(vm.State()), op, r, vm.State())
  {
    ghost var w := vm.State();
    r := 0;
    match op {
      case Create =>
        r := vm.CreateSpace();
      case Destroy(s) =>
        if s != 0 { RemoveSpace(w, s / PAGE_SIZE); }
        vm.DestroySpace(s);
      case Map(s, virt, phys, flags) =>
        r := vm.MapPage(s, virt, phys, flags);
      case Unmap(s, virt) =>
        r := vm.UnmapPage(s, virt);
      case TakeFrame =>
        ForeignFrames(w, TakeState(w.frames));
        r := vm.pmm.AllocPage();
      case GiveFrame(a) =>
        ForeignFrames(w, GiveState(w.frames, a));
        vm.pmm.FreePage(a);
    }
  }

  // ---------- Runs of the specification ----------

  type Shadow = map<nat, seq<Translation>>

  ghost predicate GoodShadow(v: Shadow, kernel: nat) {
    kernel in v && forall d :: d in v ==> |v[d]| == PAGES
  }

  ghost predicate ShadowRun(vs: seq<Shadow>, kernel: nat, ops: seq<VmOp>, rs: seq<int>) {
    && |vs| == |ops| + 1 && |rs| == |ops|
    && (forall i :: 0 <= i < |vs| ==> GoodShadow(vs[i], kernel))
    && forall i :: 0 <= i < |ops| ==> vs[i + 1] == AbstractStep(vs[i], kernel, ops[i], rs[i])
  }

  /**
    What page p of space d should be after n operations, read off the history alone: the latest
    successful map or unmap of that page of that space decides; a space starts as a copy of the kernel's.
   */
  ghost function Expected(start: Shadow, kernel: nat, ops: seq<VmOp>, rs: seq<int>, n: nat, d: nat, p: nat): Translation
    requires |rs| == |ops| && n <= |ops|
    decreases n
  {
    if n == 0 then (if d in start && p < |start[d]| then start[d][p] else Fault)
    else
      match ops[n - 1]
      case Create =>
        Expected(start, kernel, ops, rs, n - 1, if rs[n - 1] > 0 && rs[n - 1] / PAGE_SIZE == d then kernel else d, p)
      case Map(s, virt, phys, flags) =>
        if s / PAGE_SIZE == d && virt / PAGE_SIZE == p && rs[n - 1] == 0
        then Decode(Entry(phys / PAGE_SIZE, flags % PAGE_SIZE))
        else Expected(start, kernel, ops, rs, n - 1, d, p)
      case Unmap(s, virt) =>
        if s / PAGE_SIZE == d && virt / PAGE_SIZE == p then Fault else Expected(start, kernel, ops, rs, n - 1, d, p)
      case _ => Expected(start, kernel, ops, rs, n - 1, d, p)
  }

  lemma {:induction false} ShadowIsHistory(vs: seq<Shadow>, kernel: nat, ops: seq<VmOp>, rs: seq<int>, n: nat,
        d: nat, p: nat)
    requires ShadowRun(vs, kernel, ops, rs) && n <= |ops|
    requires d in vs[n] && p < PAGES
    ensures vs[n][d][p] == Expected(vs[0], kernel, ops, rs, n, d, p)
    decreases n
  {
    if n > 0 {
      assert vs[n] == AbstractStep(vs[n - 1], kernel, ops[n - 1], rs[n - 1]);
      var source := if ops[n - 1].Create? && rs[n - 1] > 0 && rs[n - 1] / PAGE_SIZE == d then kernel else d;
      ShadowIsHistory(vs, kernel, ops, rs, n - 1, source, p);
    }
  }

  /** The operation names space d, or brings it into being. */
  ghost predicate Concerns(op: VmOp, r: int, d: nat) {
    match op
    case Create => r > 0 && r / PAGE_SIZE == d
    case Destroy(s) => s / PAGE_SIZE == d
    case Map(s, _, _, _) => s / PAGE_SIZE == d
    case Unmap(s, _) => s / PAGE_SIZE == d
    case _ => false
  }

  lemma {:induction false} ShadowIsolation(vs: seq<Shadow>, kernel: nat, ops: seq<VmOp>, rs: seq<int>, n: nat, d: nat)
    requires ShadowRun(vs, kernel, ops, rs) && n <= |ops|
    requires d in vs[0] && forall k :: 0 <= k < n ==> !Concerns(ops[k], rs[k], d)
    ensures d in vs[n] && vs[n][d] == vs[0][d]
    decreases n
  {
    if n > 0 {
      ShadowIsolation(vs, kernel, ops, rs, n - 1, d);
      assert !Concerns(ops[n - 1], rs[n - 1], d);
      assert vs[n] == AbstractStep(vs[n - 1], kernel, ops[n - 1], rs[n - 1]);
    }
  }

  // ---------- Runs of the implementation ----------

  /** A run: ws are the states, rs the results. Only the first state is assumed to be good. */
  ghost predicate VmRun(ws: seq<World>, ops: seq<VmOp>, rs: seq<int>) {
    && |ws| == |ops| + 1 && |rs| == |ops| && Inv(ws[0])
    && forall i {:trigger ops[i]} :: 0 <= i < |ops| && Inv(ws[i]) ==>
         Legal(ws[i], ops[i]) && Stepped(ws[i], ops[i], rs[i], ws[i + 1])
  }

  lemma {:induction false} AlwaysGood(ws: seq<World>, ops: seq<VmOp>, rs: seq<int>, n: nat)
    requires VmRun(ws, ops, rs) && n <= |ops|
    ensures Inv(ws[n]) && ws[n].kernel == ws[0].kernel
    decreases n
  {
    if n > 0 {
      AlwaysGood(ws, ops, rs, n - 1);
      assert ops[n - 1] == ops[n - 1];
    }
  }

  /** The implementation refines the specification. */
  lemma Refines(ws: seq<World>, ops: seq<VmOp>, rs: seq<int>) returns (vs: seq<Shadow>)
    requires VmRun(ws, ops, rs)
    ensures ShadowRun(vs, ws[0].kernel, ops, rs)
    ensures forall i :: 0 <= i < |ws| ==> Inv(ws[i]) && vs[i] == Views(ws[i])
  {
    forall i | 0 <= i < |ws| ensures Inv(ws[i]) && ws[i].kernel == ws[0].kernel {
      AlwaysGood(ws, ops, rs, i);
    }
    vs := seq(|ws|, i requires 0 <= i < |ws| => Views(ws[i]));
    forall i | 0 <= i < |ops| ensures vs[i + 1] == AbstractStep(vs[i], ws[0].kernel, ops[i], rs[i]) {
      assert Stepped(ws[i], ops[i], rs[i], ws[i + 1]);
    }
  }

  /** In every run, the page tables of every live space say exactly what the history says. */
  lemma WalkIsHistory(ws: seq<World>, ops: seq<VmOp>, rs: seq<int>, d: nat, p: nat)
    requires VmRun(ws, ops, rs) && d in ws[|ops|].spaces && p < PAGES
    ensures Inv(ws[|ops|])
    ensures Walk(ws[|ops|].store, d, p) == Expected(Views(ws[0]), ws[0].kernel, ops, rs, |ops|, d, p)
  {
    var vs := Refines(ws, ops, rs);
    ShadowIsHistory(vs, ws[0].kernel, ops, rs, |ops|, d, p);
  }

  /** Isolation: no operation on other spaces, the kernel's included, changes anything in space d. */
  lemma Isolation(ws: seq<World>, ops: seq<VmOp>, rs: seq<int>, d: nat)
    requires VmRun(ws, ops, rs) && d in ws[0].spaces
    requires forall k :: 0 <= k < |ops| ==> !Concerns(ops[k], rs[k], d)
    ensures Inv(ws[|ops|])
    ensures d in ws[|ops|].spaces && View(ws[|ops|].store, d) == View(ws[0].store, d)
  {
    var vs := Refines(ws, ops, rs);
    ShadowIsolation(vs, ws[0].kernel, ops, rs, |ops|, d);
  }

  // ---------- What the kernel shares ----------

  /** A shared slot leads to the kernel's table in every space. */
  lemma SharedWalk(w: World, d: nat, p: nat)
    requires Inv(w) && d in w.spaces && p < PAGES && SharesSlot(w.store[w.kernel][p / ENTRIES])
    ensures Walk(w.store, d, p) == Walk(w.store, w.kernel, p)
  {
    assert SlotOk(w, d, p / ENTRIES);
  }

  lemma KernelPageKept(w: World, op: VmOp, r: int, w': World, p: nat)
    requires Inv(w) && Legal(w, op) && Stepped(w, op, r, w')
    requires p < PAGES && SharesSlot(w.store[w.kernel][p / ENTRIES])
    ensures Walk(w'.store, w.kernel, p) == Walk(w.store, w.kernel, p)
    ensures SharesSlot(w'.store[w.kernel][p / ENTRIES])
  {
    assert Views(w') == AbstractStep(Views(w), w.kernel, op, r);
    assert Views(w')[w.kernel][p] == Walk(w'.store, w.kernel, p);
    assert Views(w)[w.kernel][p] == Walk(w.store, w.kernel, p);
    match op {
      case Map(_, virt, _, _) => SplitAddress(virt);
      case Unmap(_, virt) => SplitAddress(virt);
      case _ =>
    }
  }

  lemma {:induction false} KernelPageFixed(ws: seq<World>, ops: seq<VmOp>, rs: seq<int>, n: nat, p: nat)
    requires VmRun(ws, ops, rs) && n <= |ops|
    requires p < PAGES && SharesSlot(ws[0].store[ws[0].kernel][p / ENTRIES])
    ensures Inv(ws[n]) && ws[n].kernel == ws[0].kernel
    ensures Walk(ws[n].store, ws[n].kernel, p) == Walk(ws[0].store, ws[0].kernel, p)
    ensures SharesSlot(ws[n].store[ws[n].kernel][p / ENTRIES])
    decreases n
  {
    AlwaysGood(ws, ops, rs, n);
    if n > 0 {
      KernelPageFixed(ws, ops, rs, n - 1, p);
      assert Legal(ws[n - 1], ops[n - 1]);
      KernelPageKept(ws[n - 1], ops[n - 1], rs[n - 1], ws[n], p);
    }
  }

  /** What the kernel maps in its shared slots, every space maps for ever: no run can change it. */
  lemma SharedForEver(ws: seq<World>, ops: seq<VmOp>, rs: seq<int>, d: nat, p: nat)
    requires VmRun(ws, ops, rs) && d in ws[|ops|].spaces
    requires p < PAGES && SharesSlot(ws[0].store[ws[0].kernel][p / ENTRIES])
    ensures Inv(ws[|ops|])
    ensures Walk(ws[|ops|].store, d, p) == Walk(ws[0].store, ws[0].kernel, p)
  {
    KernelPageFixed(ws, ops, rs, |ops|, p);
    SharedWalk(ws[|ops|], d, p);
  }

  /**
    Why maps are confined to absent and USER slots: an entry written through a shared slot changes the
    page in every space at once.
   */
  lemma UnconfinedMapIsGlobal(w: World, d: nat, page: nat, e: Word, x: nat)
    requires Inv(w) && d in w.spaces && x in w.spaces && page < PAGES
    requires !Confined(w, d, page / ENTRIES)
    ensures var t := FrameOf(w.store[d][page / ENTRIES]);
            t < MAX_PAGES &&
            Walk(Poked(w.store, t, page % ENTRIES, e), x, page) == Restrict(w.store[x][page / ENTRIES], Decode(e))
  {
    assert SlotOk(w, d, page / ENTRIES) && SlotOk(w, x, page / ENTRIES);
    assert RoleOk(w, FrameOf(w.store[d][page / ENTRIES]));
    assert FrameOf(w.store[d][page / ENTRIES]) != x;
  }

  // ---------- Conservation of frames ----------

  /** The frames handed out that are no paging structures. */
  ghost function Foreign(w: World): set<nat> {
    w.frames.held - w.owner.Keys
  }

  /** The frames held after n operations if only the frames taken and given back explicitly counted. */
  ghost function Outside(held: set<nat>, ops: seq<VmOp>, rs: seq<int>, n: nat): set<nat>
    requires |rs| == |ops| && n <= |ops|
    decreases n
  {
    if n == 0 then held
    else
      var before := Outside(held, ops, rs, n - 1);
      match ops[n - 1]
      case TakeFrame => if rs[n - 1] > 0 then before + {rs[n - 1] / PAGE_SIZE} else before
      case GiveFrame(a) => before - {a / PAGE_SIZE}
      case _ => before
  }

  lemma RunBasics(ws: seq<World>, ops: seq<VmOp>, rs: seq<int>)
    requires VmRun(ws, ops, rs)
    ensures |ws| == |ops| + 1 && |rs| == |ops| && Inv(ws[0])
  {
  }

  lemma StepOf(ws: seq<World>, ops: seq<VmOp>, rs: seq<int>, n: nat)
    requires VmRun(ws, ops, rs) && n < |ops|
    ensures |ws| == |ops| + 1 && |rs| == |ops|
    ensures Inv(ws[n]) && Inv(ws[n + 1]) && Legal(ws[n], ops[n]) && FramesStep(ws[n], ops[n], rs[n], ws[n + 1])
  {
    AlwaysGood(ws, ops, rs, n);
    assert Stepped(ws[n], ops[n], rs[n], ws[n + 1]);
  }

  /** What one operation does to the frames outside the spaces, and which space it can change. */
  lemma ForeignStep(w: World, op: VmOp, r: int, w': World)
    requires Inv(w) && Inv(w') && Legal(w, op) && FramesStep(w, op, r, w')
    ensures w'.frames.total == w.frames.total
    ensures Foreign(w') == match op
                           case TakeFrame => if r > 0 then Foreign(w) + {r / PAGE_SIZE} else Foreign(w)
                           case GiveFrame(a) => Foreign(w) - {a / PAGE_SIZE}
                           case _ => Foreign(w)
    ensures op.TakeFrame? && r > 0 ==> r / PAGE_SIZE !in w.frames.held && r / PAGE_SIZE !in w.owner
  {
    match op
    case Create =>
      if r != 0 {
        var nd := r / PAGE_SIZE;
        assert w'.owner.Keys == OwnedBy(w', nd) + w.owner.Keys;
      }
    case Destroy(s) =>
      if s != 0 { assert w'.owner.Keys == w.owner.Keys - OwnedBy(w, s / PAGE_SIZE); }
    case Map(s, _, _, _) => BooksKeepForeign(w, w', s / PAGE_SIZE);
    case Unmap(s, _) => BooksKeepForeign(w, w', s / PAGE_SIZE);
    case TakeFrame =>
      var f := LowestFree(w.frames);
      if f < w.frames.total {
        FreshIsUnowned(w, f);
        assert TakeResult(w.frames) / PAGE_SIZE == f;
      }
    case GiveFrame(a) =>
  }

  lemma BooksKeepForeign(w: World, w': World, d: nat)
    requires FrameBooks(w, w', d)
    ensures Foreign(w') == Foreign(w)
  {
    assert Foreign(w) == Others(w, d) - Elsewhere(w, d).Keys;
    assert Foreign(w') == Others(w', d) - Elsewhere(w', d).Keys;
  }

  /**
    Over every run, with any number of spaces living at the same time, the frames that are no paging structure of
    a live space are exactly those that were such at first, and those taken since and not given back.
   */
  lemma {:induction false} Conservation(ws: seq<World>, ops: seq<VmOp>, rs: seq<int>, n: nat)
    requires VmRun(ws, ops, rs) && n <= |ops|
    ensures Inv(ws[n]) && ws[n].frames.total == ws[0].frames.total
    ensures Foreign(ws[n]) == Outside(Foreign(ws[0]), ops, rs, n)
    decreases n
  {
    hide VmRun, Inv, Legal, FramesStep, Foreign;
    RunBasics(ws, ops, rs);
    if n > 0 {
      StepOf(ws, ops, rs, n - 1);
      Conservation(ws, ops, rs, n - 1);
      ForeignStep(ws[n - 1], ops[n - 1], rs[n - 1], ws[n]);
    }
  }

  /** The paging structures of these spaces, and those that all spaces share. */
  ghost function RolesOf(w: World, kept: set<nat>): map<nat, Role> {
    map f | f in w.owner && InRoles(f, w.owner[f], kept) :: w.owner[f]
  }

  ghost predicate InRoles(f: nat, role: Role, kept: set<nat>) {
    match role
    case Directory => f in kept
    case Table(d, _) => d in kept
    case Shared(_) => true
  }

  /** The operation names no space of this set. */
  ghost predicate NamesNone(op: VmOp, kept: set<nat>) {
    match op
    case Map(s, _, _, _) => s / PAGE_SIZE !in kept
    case Unmap(s, _) => s / PAGE_SIZE !in kept
    case Destroy(s) => s == 0 || s / PAGE_SIZE !in kept
    case _ => true
  }

  lemma SameElsewhere(w: World, w': World, d: nat, kept: set<nat>)
    requires d !in kept && Elsewhere(w, d) == Elsewhere(w', d)
    requires (d in w.owner ==> w.owner[d] == Directory) && (d in w'.owner ==> w'.owner[d] == Directory)
    ensures RolesOf(w', kept) == RolesOf(w, kept)
  {
    forall f | f in RolesOf(w, kept) ensures f in RolesOf(w', kept) && RolesOf(w', kept)[f] == RolesOf(w, kept)[f] {
      assert f in Elsewhere(w, d);
      assert f in Elsewhere(w', d) && Elsewhere(w', d)[f] == Elsewhere(w, d)[f];
    }
    forall f | f in RolesOf(w', kept) ensures f in RolesOf(w, kept) {
      assert f in Elsewhere(w', d);
      assert f in Elsewhere(w, d) && Elsewhere(w', d)[f] == Elsewhere(w, d)[f];
    }
  }

  lemma RolesStep(w: World, op: VmOp, r: int, w': World, kept: set<nat>)
    requires Inv(w) && Inv(w') && Legal(w, op) && FramesStep(w, op, r, w') && kept <= w.spaces && NamesNone(op, kept)
    ensures RolesOf(w', kept) == RolesOf(w, kept) && kept <= w'.spaces
  {
    DirectoryOf(w);
    DirectoryOf(w');
    match op
    case Create => if r != 0 { CreateRoles(w, r, w', kept); }
    case Destroy(s) => if s != 0 { DestroyRoles(w, s / PAGE_SIZE, kept); }
    case Map(s, _, _, _) =>
      hide Inv;
      SameElsewhere(w, w', s / PAGE_SIZE, kept);
    case Unmap(s, _) =>
      hide Inv;
      SameElsewhere(w, w', s / PAGE_SIZE, kept);
    case TakeFrame => hide Inv;
    case GiveFrame(a) => hide Inv;
  }

  lemma DirectoryOf(w: World)
    requires Inv(w)
    ensures forall d :: d in w.spaces ==> d in w.owner && w.owner[d] == Directory
  {
  }

  lemma CreateRoles(w: World, r: int, w': World, kept: set<nat>)
    requires Inv(w) && Inv(w') && r > 0 && Created(w, w', r) && kept <= w.spaces
    ensures RolesOf(w', kept) == RolesOf(w, kept) && kept <= w'.spaces
  {
    FreshSpace(w, w', r);
    DirectoryOf(w');
    hide Inv;
    assert Elsewhere(w, r / PAGE_SIZE) == w.owner;
    SameElsewhere(w, w', r / PAGE_SIZE, kept);
  }

  lemma DestroyRoles(w: World, d: nat, kept: set<nat>)
    requires Inv(w) && d in w.spaces && kept <= w.spaces && d !in kept
    ensures RolesOf(WithoutSpace(w, d), kept) == RolesOf(w, kept) && kept <= WithoutSpace(w, d).spaces
  {
    DirectoryOf(w);
    hide Inv;
    assert OwnedBy(WithoutSpace(w, d), d) == {};
    SameElsewhere(w, WithoutSpace(w, d), d, kept);
  }

  lemma FreshSpace(w: World, w': World, r: int)
    requires Inv(w) && Inv(w') && r > 0 && Created(w, w', r)
    ensures OwnedBy(w, r / PAGE_SIZE) == {} && r / PAGE_SIZE !in w.owner
  {
    var nd := r / PAGE_SIZE;
    forall f | f in w.owner && w.owner[f].Table? ensures w.owner[f].dir != nd { assert RoleOk(w, f); }
  }

  lemma {:induction false} RolesFollow(ws: seq<World>, ops: seq<VmOp>, rs: seq<int>, n: nat)
    requires VmRun(ws, ops, rs) && n <= |ops| && forall k :: 0 <= k < n ==> NamesNone(ops[k], ws[0].spaces)
    ensures Inv(ws[n]) && RolesOf(ws[n], ws[0].spaces) == ws[0].owner && ws[0].spaces <= ws[n].spaces
    decreases n
  {
    hide VmRun, Inv, Legal, FramesStep, NamesNone;
    RunBasics(ws, ops, rs);
    if n == 0 {
      AllRoles(ws[0]);
    } else {
      StepOf(ws, ops, rs, n - 1);
      RolesFollow(ws, ops, rs, n - 1);
      RolesStep(ws[n - 1], ops[n - 1], rs[n - 1], ws[n], ws[0].spaces);
    }
  }

  lemma AllRoles(w: World)
    requires Inv(w)
    ensures RolesOf(w, w.spaces) == w.owner
  {
    forall f | f in w.owner ensures InRoles(f, w.owner[f], w.spaces) { assert RoleOk(w, f); }
  }

  /** Frames that nobody gives back can be counted apart. */
  lemma {:induction false} OutsideSplits(held: set<nat>, more: set<nat>, ops: seq<VmOp>, rs: seq<int>, n: nat)
    requires |rs| == |ops| && n <= |ops|
    requires forall k :: 0 <= k < n && ops[k].GiveFrame? ==> ops[k].addr / PAGE_SIZE !in more
    ensures Outside(held + more, ops, rs, n) == Outside(held, ops, rs, n) + more
    decreases n
  {
    if n > 0 { OutsideSplits(held, more, ops, rs, n - 1); }
  }

  /** The frames counted from the outside, while the spaces of the start are left alone. */
  lemma OutsideIs(ws: seq<World>, ops: seq<VmOp>, rs: seq<int>, n: nat)
    requires VmRun(ws, ops, rs) && n <= |ops| && forall k :: 0 <= k < n ==> NamesNone(ops[k], ws[0].spaces)
    ensures Inv(ws[n]) && ws[0].owner.Keys <= ws[n].owner.Keys
    ensures Outside(ws[0].frames.held, ops, rs, n) == Foreign(ws[n]) + ws[0].frames.held * ws[0].owner.Keys
  {
    var held, own := ws[0].frames.held, ws[0].frames.held * ws[0].owner.Keys;
    forall k | 0 <= k < n && ops[k].GiveFrame? ensures ops[k].addr / PAGE_SIZE !in own {
      RolesFollow(ws, ops, rs, k);
      assert Legal(ws[k], ops[k]);
      assert forall f :: f in own ==> f in RolesOf(ws[k], ws[0].spaces);
    }
    hide VmRun, Inv, Outside, NamesNone;
    RolesFollow(ws, ops, rs, n);
    forall f | f in ws[0].owner ensures f in ws[n].owner { assert f in RolesOf(ws[n], ws[0].spaces); }
    Conservation(ws, ops, rs, n);
    OutsideSplits(Foreign(ws[0]), own, ops, rs, n);
    assert Foreign(ws[0]) + own == held;
  }

  /**
    Spaces give back exactly the frames they took. Over every run in which any number of spaces is created,
    mapped and destroyed again, one beside the other, the frames held change only by the frames that others
    took and gave back.
   */
  lemma FramesComeBack(ws: seq<World>, ops: seq<VmOp>, rs: seq<int>)
    requires VmRun(ws, ops, rs) && forall k :: 0 <= k < |ops| ==> NamesNone(ops[k], ws[0].spaces)
    requires ws[|ops|].spaces == ws[0].spaces
    ensures ws[|ops|].frames == ws[0].frames.(held := Outside(ws[0].frames.held, ops, rs, |ops|))
    ensures ws[|ops|].owner == ws[0].owner
  {
    var n := |ops|;
    OutsideIs(ws, ops, rs, n);
    RolesFollow(ws, ops, rs, n);
    Conservation(ws, ops, rs, n);
    hide VmRun, Outside, NamesNone;
    AllRoles(ws[n]);
    HeldOwners(ws[0]);
    HeldOwners(ws[n]);
    assert ws[n].frames.held == Foreign(ws[n]) + ws[n].frames.held * ws[n].owner.Keys;
  }

  lemma HeldOwners(w: World)
    requires Inv(w)
    ensures forall f :: f in w.owner ==> (f in w.frames.held <==> f < w.frames.total)
  {
    forall f | f in w.owner ensures f in w.frames.held <==> f < w.frames.total { assert RoleOk(w, f); }
  }

  // ---------- User processes ----------

  /** Nobody gives the frame back that was taken at i. */
  ghost predicate NeverGiven(ops: seq<VmOp>, rs: seq<int>, i: nat)
    requires i < |ops| == |rs|
  {
    forall k :: i < k < |ops| && ops[k].GiveFrame? ==> ops[k].addr / PAGE_SIZE != rs[i] / PAGE_SIZE
  }

  lemma {:induction false} TakenStays(held: set<nat>, ops: seq<VmOp>, rs: seq<int>, i: nat, n: nat)
    requires i < n <= |ops| == |rs| && ops[i].TakeFrame? && rs[i] > 0 && NeverGiven(ops, rs, i)
    ensures rs[i] / PAGE_SIZE in Outside(held, ops, rs, n)
    decreases n
  {
    if n > i + 1 { TakenStays(held, ops, rs, i, n - 1); }
  }

  /**
    A user process in a run beside any others: its space is created at c and destroyed at d. Then the space has
    no frame any more. But a frame that was taken at i, for its stack or for a page of its program, and that
    nobody gives back, was free and stays held for ever, part of no space: destroying the space does not free it.
   */
  lemma LifeOfAUserProcess(ws: seq<World>, ops: seq<VmOp>, rs: seq<int>, c: nat, d: nat, i: nat)
    requires VmRun(ws, ops, rs) && c < i < d < |ops| && ops[c] == Create && rs[c] > 0 && ops[d] == Destroy(rs[c])
    requires ops[i].TakeFrame? && rs[i] > 0 && NeverGiven(ops, rs, i)
    ensures rs[c] / PAGE_SIZE !in ws[d + 1].spaces && OwnedBy(ws[d + 1], rs[c] / PAGE_SIZE) == {}
    ensures rs[i] / PAGE_SIZE !in ws[i].frames.held
    ensures rs[i] / PAGE_SIZE in ws[|ops|].frames.held && rs[i] / PAGE_SIZE !in ws[|ops|].owner
  {
    StepOf(ws, ops, rs, i);
    ForeignStep(ws[i], ops[i], rs[i], ws[i + 1]);
    StepOf(ws, ops, rs, d);
    assert OwnedBy(ws[d + 1], rs[c] / PAGE_SIZE) == {};
    hide VmRun, Inv, FramesStep, Legal;
    Conservation(ws, ops, rs, |ops|);
    TakenStays(Foreign(ws[0]), ops, rs, i, |ops|);
  }

  /**
    The life of a single user process: a space with the code page and a fresh stack page mapped, two frames for the
    kernel stack, then any maps of its own and frames for the pages of a program, and then process_destroy.
   */
  ghost predicate UserProcess(ops: seq<VmOp>, rs: seq<int>) {
    && |ops| >= 9 && |rs| == |ops| && ops[0] == Create && rs[0] > 0
    && ops[1].Map? && ops[1].space == rs[0]
    && ops[2].TakeFrame? && rs[2] > 0 && ops[3].Map? && ops[3].space == rs[0]
    && ops[4].TakeFrame? && rs[4] > 0 && ops[5].TakeFrame? && rs[5] > 0
    && (forall k :: 6 <= k < |ops| - 3 ==>
          ops[k].TakeFrame? || ((ops[k].Map? || ops[k].Unmap?) && ops[k].space == rs[0]))
    && ops[|ops| - 3] == Destroy(rs[0])
    && ops[|ops| - 2] == GiveFrame(rs[4]) && ops[|ops| - 1] == GiveFrame(rs[5])
  }

  /** The frames taken by the operations from m up to n. */
  ghost function TakenIn(ops: seq<VmOp>, rs: seq<int>, m: nat, n: nat): set<nat>
    requires |rs| == |ops| && m <= n <= |ops|
    decreases n
  {
    if n == m then {}
    else TakenIn(ops, rs, m, n - 1) + if ops[n - 1].TakeFrame? && rs[n - 1] > 0 then {rs[n - 1] / PAGE_SIZE} else {}
  }

  /**
    When a user process that lived alone is destroyed, everything that it took comes back except its stack page and
    the pages that its program was loaded into; all of these were free before.
   */
  lemma OneUserProcess(ws: seq<World>, ops: seq<VmOp>, rs: seq<int>)
    requires VmRun(ws, ops, rs) && UserProcess(ops, rs)
    ensures var lost := {rs[2] / PAGE_SIZE} + TakenIn(ops, rs, 6, |ops| - 3);
            && lost !! ws[0].frames.held
            && ws[|ops|].frames.held == ws[0].frames.held + lost && ws[|ops|].spaces == ws[0].spaces
  {
    hide VmRun, Outside, Inv, NamesNone, TakenIn;
    RunBasics(ws, ops, rs);
    NamesItsOwn(ws, ops, rs);
    SpacesOfOne(ws, ops, rs, |ops|);
    FramesComeBack(ws, ops, rs);
    FrameIsNew(ws, ops, rs, 2);
    FrameIsNew(ws, ops, rs, 4);
    FrameIsNew(ws, ops, rs, 5);
    forall k | 6 <= k < |ops| - 3 && ops[k].TakeFrame? && rs[k] > 0
      ensures rs[k] / PAGE_SIZE !in Outside(ws[0].frames.held, ops, rs, k)
    {
      FrameIsNew(ws, ops, rs, k);
    }
    TakenAreNew(ws[0].frames.held, ops, rs, 6, |ops| - 3);
    ProcessFrames(ws[0].frames.held, ops, rs);
  }

  /** The operations of a single process name its space and no other; it is created first and destroyed once. */
  lemma OpOfOne(ops: seq<VmOp>, rs: seq<int>, k: nat)
    requires UserProcess(ops, rs) && k < |ops|
    ensures ops[k].Create? <==> k == 0
    ensures ops[k].Destroy? <==> k == |ops| - 3
    ensures (ops[k].Map? || ops[k].Unmap?) ==> ops[k].space == rs[0]
    ensures ops[k].Destroy? ==> ops[k].space == rs[0]
  {
    if 6 <= k < |ops| - 3 {
      assert ops[k].TakeFrame? || ((ops[k].Map? || ops[k].Unmap?) && ops[k].space == rs[0]);
    }
  }

  lemma CreatedOne(ws: seq<World>, ops: seq<VmOp>, rs: seq<int>)
    requires VmRun(ws, ops, rs) && |ops| > 0 && ops[0] == Create && rs[0] > 0
    ensures rs[0] / PAGE_SIZE !in ws[0].spaces
  {
    StepOf(ws, ops, rs, 0);
    hide VmRun, Inv;
  }

  lemma NamesItsOwn(ws: seq<World>, ops: seq<VmOp>, rs: seq<int>)
    requires VmRun(ws, ops, rs) && UserProcess(ops, rs)
    ensures forall k :: 0 <= k < |ops| ==> NamesNone(ops[k], ws[0].spaces)
  {
    RunBasics(ws, ops, rs);
    CreatedOne(ws, ops, rs);
    hide VmRun;
    forall k | 0 <= k < |ops| ensures NamesNone(ops[k], ws[0].spaces) {
      OpOfOne(ops, rs, k);
      hide UserProcess;
    }
  }

  lemma SpacesStep(w: World, op: VmOp, r: int, w': World)
    requires Inv(w) && Inv(w') && FramesStep(w, op, r, w')
    ensures w'.spaces == match op
                         case Create => if r == 0 then w.spaces else w.spaces + {r / PAGE_SIZE}
                         case Destroy(s) => if s == 0 then w.spaces else w.spaces - {s / PAGE_SIZE}
                         case _ => w.spaces
  {
    hide Inv;
  }

  lemma {:induction false} SpacesOfOne(ws: seq<World>, ops: seq<VmOp>, rs: seq<int>, n: nat)
    requires VmRun(ws, ops, rs) && UserProcess(ops, rs) && 0 < n <= |ops|
    ensures ws[n].spaces == if n <= |ops| - 3 then ws[0].spaces + {rs[0] / PAGE_SIZE} else ws[0].spaces
    decreases n
  {
    hide VmRun, Inv, Legal, FramesStep;
    StepOf(ws, ops, rs, n - 1);
    OpOfOne(ops, rs, n - 1);
    CreatedOne(ws, ops, rs);
    assert rs[0] > 0 && |ops| >= 9;
    if n > 1 { SpacesOfOne(ws, ops, rs, n - 1); }
    hide UserProcess;
    SpacesStep(ws[n - 1], ops[n - 1], rs[n - 1], ws[n]);
  }

  /** The frame that a request of the run gets is not among those counted before. */
  lemma FrameIsNew(ws: seq<World>, ops: seq<VmOp>, rs: seq<int>, n: nat)
    requires VmRun(ws, ops, rs) && n < |ops| && ops[n].TakeFrame? && rs[n] > 0
    requires forall k :: 0 <= k < |ops| ==> NamesNone(ops[k], ws[0].spaces)
    ensures rs[n] / PAGE_SIZE !in Outside(ws[0].frames.held, ops, rs, n)
  {
    StepOf(ws, ops, rs, n);
    hide VmRun, Inv, FramesStep, Legal, Outside, NamesNone;
    ForeignStep(ws[n], ops[n], rs[n], ws[n + 1]);
    OutsideIs(ws, ops, rs, n);
  }

  lemma ProcessFrames(held: set<nat>, ops: seq<VmOp>, rs: seq<int>)
    requires UserProcess(ops, rs)
    requires rs[2] / PAGE_SIZE !in Outside(held, ops, rs, 2) && rs[4] / PAGE_SIZE !in Outside(held, ops, rs, 4)
    requires rs[5] / PAGE_SIZE !in Outside(held, ops, rs, 5)
    requires TakenIn(ops, rs, 6, |ops| - 3) !! Outside(held, ops, rs, 6)
    ensures var lost := {rs[2] / PAGE_SIZE} + TakenIn(ops, rs, 6, |ops| - 3);
            lost !! held && Outside(held, ops, rs, |ops|) == held + lost
  {
    var n := |ops|;
    OutsideSkips(held, ops, rs, 0, 2);
    OutsideSkips(held, ops, rs, 3, 4);
    OutsideTakes(held, ops, rs, 6, n - 3);
    OutsideSkips(held, ops, rs, n - 3, n - 2);
    OutsideStep(held, ops, rs, 2);
    OutsideStep(held, ops, rs, 4);
    OutsideStep(held, ops, rs, 5);
    OutsideStep(held, ops, rs, n - 2);
    OutsideStep(held, ops, rs, n - 1);
    hide Outside, TakenIn;
    assert Outside(held, ops, rs, n) == held + ({rs[2] / PAGE_SIZE} + TakenIn(ops, rs, 6, n - 3));
  }

  lemma {:induction false} OutsideTakes(held: set<nat>, ops: seq<VmOp>, rs: seq<int>, m: nat, n: nat)
    requires |rs| == |ops| && m <= n <= |ops|
    requires forall k :: m <= k < n ==> !ops[k].GiveFrame?
    ensures Outside(held, ops, rs, n) == Outside(held, ops, rs, m) + TakenIn(ops, rs, m, n)
    decreases n
  {
    if n > m { OutsideTakes(held, ops, rs, m, n - 1); }
  }

  lemma {:induction false} TakenAreNew(held: set<nat>, ops: seq<VmOp>, rs: seq<int>, m: nat, n: nat)
    requires |rs| == |ops| && m <= n <= |ops| && forall k :: m <= k < n ==> !ops[k].GiveFrame?
    requires forall k :: m <= k < n && ops[k].TakeFrame? && rs[k] > 0 ==>
               rs[k] / PAGE_SIZE !in Outside(held, ops, rs, k)
    ensures TakenIn(ops, rs, m, n) !! Outside(held, ops, rs, m)
    decreases n
  {
    if n > m {
      TakenAreNew(held, ops, rs, m, n - 1);
      OutsideTakes(held, ops, rs, m, n - 1);
      hide Outside;
    }
  }

  lemma OutsideStep(held: set<nat>, ops: seq<VmOp>, rs: seq<int>, n: nat)
    requires |rs| == |ops| && n < |ops|
    ensures ops[n].TakeFrame? && rs[n] > 0 ==>
              Outside(held, ops, rs, n + 1) == Outside(held, ops, rs, n) + {rs[n] / PAGE_SIZE}
    ensures ops[n].GiveFrame? ==> Outside(held, ops, rs, n + 1) == Outside(held, ops, rs, n) - {ops[n].addr / PAGE_SIZE}
  {
  }

  lemma {:induction false} OutsideSkips(held: set<nat>, ops: seq<VmOp>, rs: seq<int>, m: nat, n: nat)
    requires |rs| == |ops| && m <= n <= |ops|
    requires forall k :: m <= k < n ==> !ops[k].TakeFrame? && !ops[k].GiveFrame?
    ensures Outside(held, ops, rs, n) == Outside(held, ops, rs, m)
    decreases n
  {
    if n > m { OutsideSkips(held, ops, rs, m, n - 1); }
  }
}
