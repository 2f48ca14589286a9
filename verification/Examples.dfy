/** Inputs on which the kernel does not do what one would expect, and some on which it does. They begin with
    two address spaces without any page. */
module Examples {
  import opened Lists
  import opened PageBitmap
  import opened PageTables
  import opened PageSteps
  import opened PageMap
  import opened PageRefinement
  import opened PageRanges
  import opened PageOwnership
  import opened PageRoundTrip
  import opened KernelPages
  import opened ExactMaps
  import opened Regions
  import opened RegionCopies
  import opened TaskRegions
  import opened PageSync
  import opened KernelTop
  import opened Coherence
  import opened Supply
  import opened MapFlags
  import opened Areas
  import Conservation

  lemma AllocSucceeds(b: Bitmap, free: set<Frame>) returns (f: Frame, left: set<Frame>)
    requires b.Valid() && AllFree(b, free) && free != {}
    ensures Alloc(b, 1, 0) == (b.Mark(f, 1, true), Some(f)) && b.IsFree(f)
    ensures AllBut(free, left, 1) && AllFree(b.Mark(f, 1, true), left)
  {
    hide FirstFit;
    FreeFits(b, free);
    f := FirstFit(b, 1, 0).value;
    assert b.RunFree(f, 1) && b.IsFree(f);
    StillFree(b, f, free);
    left := free - {f};
  }

  // ---- two address spaces without any page

  const SELF := {Present, Writable}
  /** How many frames are free: 2 TiB. */
  const FRAMES := 0x2000_0000
  /** The first frame that the allocator does not know of. */
  const DEVICE := 3 + FRAMES

  /** A PML4 with nothing but its window. */
  function Bare(f: Frame): (t: seq<Entry>)
    ensures |t| == PTE_COUNT && forall i :: 0 <= i < PTE_COUNT ==> t[i] == if i == WINDOW then Entry(f, SELF) else ZERO
  {
    ZeroTable()[WINDOW := Entry(f, SELF)]
  }

  /** PML4 1 is loaded, PML4 2 is that of another task; the frames from 3 on are free. */
  function Empty(stale: bool): Space {
    Space(map g: nat | 1 <= g <= DEVICE :: if g < 3 then Bare(g) else ZeroTable(), 1,
          Bitmap(3, seq(FRAMES, i => false), seq(FRAMES, i => true)), [TaskVm(2, stale, true)])
  }

  function FreeOnes(): set<Frame> { FrameRange(3, FRAMES) }

  lemma EmptyFree(stale: bool)
    ensures Empty(stale).pm.Valid() && AllFree(Empty(stale).pm, FreeOnes()) && |FreeOnes()| == FRAMES
  {
    hide FrameRange;
    CountFrames(3, FRAMES);
  }

  lemma EmptyPm(stale: bool)
    ensures Empty(stale).pm.Valid()
  {
  }

  lemma EmptyWords(stale: bool, r: Frame, j: nat)
    requires r == 1 || r == 2
    ensures Word(Empty(stale).mem, r, j) == if j == WINDOW then Entry(r, SELF) else ZERO
  {
  }

  lemma EmptyRoots(stale: bool, f: Frame)
    ensures Empty(stale).IsRoot(f) <==> f == 1 || f == 2
  {
    var s := Empty(stale);
    assert s.tasks[0] in s.tasks;
  }

  /** There are no tables but the two PML4s. */
  lemma {:induction false} EmptyTables(stale: bool, n: Node)
    requires Empty(stale).InTree(n)
    ensures n.Sub? ==> Table(Empty(stale).mem, n) == None
    ensures forall i: nat :: Empty(stale).HasSlot(n, i) ==> Slot(Empty(stale).mem, n, i) == ZERO
    decreases n
  {
    hide Empty;
    match n
    case Top(r) =>
      EmptyRoots(stale, r);
      forall i: nat | Empty(stale).HasSlot(n, i) ensures Slot(Empty(stale).mem, n, i) == ZERO {
        TopSlot(Empty(stale).mem, r, i);
        EmptyWords(stale, r, i);
      }
    case Sub(m, i) => EmptyTables(stale, m);
  }

  lemma EmptySound(stale: bool)
    ensures Empty(stale).WF() && Empty(stale).NoEmptyTable()
  {
    var s := Empty(stale);
    forall n | s.InTree(n) && Table(s.mem, n).Some?
      ensures n.Top? && IsFrame(s.mem, Table(s.mem, n).value) && !s.pm.IsFree(Table(s.mem, n).value)
    {
      EmptyTables(stale, n);
      if n.Top? { EmptyRoots(stale, n.root); }
    }
    forall r: nat | s.IsRoot(r) ensures IsTable(Word(s.mem, r, WINDOW)) && Word(s.mem, r, WINDOW).frame == r {
      EmptyRoots(stale, r);
    }
    forall n, i: nat | s.HasSlot(n, i) ensures EntryOk(Slot(s.mem, n, i), n.Depth()) { EmptyTables(stale, n); }
  }

  lemma EmptyAgrees(stale: bool)
    ensures AgreeKernel(Empty(stale).mem, 2, 1) && Coherent(Empty(stale)) && Writables(Empty(stale))
  {
    hide Word;
    var s := Empty(stale);
    forall j: nat ensures Word(s.mem, 1, j) == if j == WINDOW then Entry(1, SELF) else ZERO {
      EmptyWords(stale, 1, j);
    }
    forall j: nat ensures Word(s.mem, 2, j) == if j == WINDOW then Entry(2, SELF) else ZERO {
      EmptyWords(stale, 2, j);
    }
  }

  lemma EmptyGood(stale: bool)
    ensures Good(Empty(stale)) && Empty(stale).cr3 == 1 && Empty(stale).tasks == [TaskVm(2, stale, true)]
  {
    EmptySound(stale);
    EmptyAgrees(stale);
  }

  lemma EmptyLookup(stale: bool, v: nat)
    requires IsPage(v)
    ensures Lookup(Empty(stale).mem, 1, v) == ZERO && !InHuge(Empty(stale).mem, 1, v)
  {
    hide I4, I3, I2, I1;
    PathInTree(Empty(stale), v);
    EmptyTables(stale, N2(1, v));
    EmptyTables(stale, N3(1, v));
  }

  lemma FirstIsKernel()
    ensures IsPage(FIRST) && IsPage(FIRST + 1) && I4(FIRST) == I4(FIRST + 1) == KERNEL_SLOT && IsPage(0)
  {
  }

  // ---- a copy for whose structure there is no room

  /** A kernel stack of one page, before it has an address. */
  const STACK_REGION := Region(STACK, KERNEL_AREA, 0, 0, 1)

  lemma StartOwned()
    ensures Conservation.Inv(Conservation.State(Empty(false), [], {}), {})
  {
    hide Lookup, IsPage;
    var s := Empty(false);
    EmptyGood(false);
    FirstIsKernel();
    EmptyLookup(false, 0);
    assert Owned(s, {}) by {
      forall f: nat | s.pm.Covers(f) ensures !s.pm.IsUsed(f) && !IsTab(s, f) && !IsLeafFrame(s, f) { EmptyUnused(f); }
      EmptyLeaves();
    }
  }

  lemma EmptyUnused(f: Frame)
    requires Empty(false).pm.Covers(f)
    ensures !Empty(false).pm.IsUsed(f) && !IsTab(Empty(false), f) && !IsLeafFrame(Empty(false), f)
  {
    var s := Empty(false);
    forall n | s.InTree(n) ensures Table(s.mem, n) != Some(f) {
      EmptyTables(false, n);
      if n.Top? { EmptyRoots(false, n.root); }
    }
    EmptyLeaves();
  }

  lemma EmptyLeaves()
    ensures forall n, i: nat :: !IsLeaf(Empty(false), n, i)
  {
    var s := Empty(false);
    forall n, i: nat | s.HasSlot(n, i) ensures Slot(s.mem, n, i) == ZERO { EmptyTables(false, n); }
  }

  /** A page mapped in the empty state. */
  lemma FirstMapped(s: Space, f: Frame, attr: Attr)
    requires s == Empty(false).(pm := s.pm) && s.WF() && MapOne(s, FIRST, f, attr).Some?
    ensures var t := MapOne(s, FIRST, f, attr).value;
            && t.cr3 == 1 && t.pm.Valid() && Lookup(t.mem, 1, FIRST) == Entry(f, LeafFlags(attr))
            && SmallPages(t, FIRST, 1) && Unmapped(t, FIRST + 1, 1) && Lookup(t.mem, 1, 0) == ZERO
    ensures MapPages(s, FIRST, f, 1, attr) == MapOne(s, FIRST, f, attr)
  {
    hide Empty, MapOne, Lookup, InHuge, IsPage, I4, LeafFlags, OthersStay, TopGuarded, TablesStay, Undisturbed;
    FirstIsKernel();
    EmptyGood(false);
    EmptyLookup(false, FIRST);
    EmptyLookup(false, FIRST + 1);
    EmptyLookup(false, 0);
    MappingOne(s, FIRST, f, attr);
    var t := MapOne(s, FIRST, f, attr).value;
    assert MapPages(t, FIRST + 1, f + 1, 0, attr) == Some(t);
  }

  /** Memory with the page of a kernel stack in frame `f`, and after that with the page of its copy in frame
      `g`. */
  ghost predicate StackPages(f: Frame, w: Space, g: Frame, y: Space) {
    var m := Empty(false);
    && m.pm.Valid() && Alloc(m.pm, 1, 0) == (m.pm.Mark(f, 1, true), Some(f)) && f > 0
    && MapPages(m.(pm := m.pm.Mark(f, 1, true)), FIRST, f, 1, RegionAttr(STACK_REGION)) == Some(w)
    && w.cr3 == 1 && w.pm.Valid() && Lookup(w.mem, 1, FIRST) == Entry(f, LeafFlags(RegionAttr(STACK_REGION)))
    && SmallPages(w, FIRST, 1) && Unmapped(w, FIRST + 1, 1)
    && Alloc(w.pm, 1, 0) == (w.pm.Mark(g, 1, true), Some(g))
    && MapPages(w.(pm := w.pm.Mark(g, 1, true)), FIRST + 1, g, 1, KERNEL_PAGES) == Some(y)
  }

  lemma PagesForStack() returns (f: Frame, w: Space, g: Frame, y: Space)
    ensures StackPages(f, w, g, y)
  {
    hide MapOne, Empty, Lookup, IsPage, AllFree, FreeOnes, SmallPages, Unmapped, LeafFlags, FirstFit, Good;
    EmptyFree(false);
    EmptyGood(false);
    var m, r := Empty(false), STACK_REGION;
    var free, left;
    f, free := AllocSucceeds(m.pm, FreeOnes());
    var u := m.(pm := m.pm.Mark(f, 1, true));
    assert u.WF() by { MarkedSound(m, f); }
    free := MapSucceeds(u, FIRST, f, RegionAttr(r), free);
    FirstMapped(u, f, RegionAttr(r));
    w := MapOne(u, FIRST, f, RegionAttr(r)).value;
    g, left := AllocSucceeds(w.pm, free);
    var x := w.(pm := w.pm.Mark(g, 1, true));
    left := MapSucceeds(x, FIRST + 1, g, KERNEL_PAGES, left);
    y := MapOne(x, FIRST + 1, g, KERNEL_PAGES).value;
    assert MapPages(y, FIRST + 2, g + 1, 0, KERNEL_PAGES) == Some(y);
  }

  lemma MarkedSound(s: Space, f: Frame)
    requires Good(s) && s.pm.IsFree(f)
    ensures s.(pm := s.pm.Mark(f, 1, true)).WF()
  {
    assert s.pm.RunFree(f, 1);
    MarkingRun(s, f, 1);
  }

  /** A region gets a page, and is copied when the heap has no room: the frame of the copy is lost. */
  lemma CopyLosesFrame(kernelEnd: nat) returns (t: Conservation.State)
    ensures Conservation.Inv(Conservation.State(Empty(false), [], {}), {})
    ensures Conservation.Reaches(Conservation.State(Empty(false), [], {}), Ops(kernelEnd), t)
    ensures Conservation.Leaks(Conservation.State(Empty(false), [], {}), t, {})
  {
    hide MapPages, Empty, Lookup, Unmapped, SmallPages, LeafFlags, StackPages, Conservation.Apply, Conservation.Inv,
      Alloc;
    StartOwned();
    var f, w, g, y := PagesForStack();
    var s0 := Conservation.State(Empty(false), [], {});
    var s1 := Conservation.State(Empty(false), [STACK_REGION], {});
    var s2 := Conservation.State(w, [STACK_REGION.(page := FIRST, frame := f)], {});
    StepOne(s0, s1);
    StepTwo(s1, s2, f, g, y, kernelEnd);
    StepThree(s2, f, g, y);
    t := Conservation.Apply(s2, Ops(kernelEnd)[2]).value;
    var ops := Ops(kernelEnd);
    assert ops[1..][1..][1..] == [] && ops[1..][0] == ops[1] && ops[1..][1..][0] == ops[2];
    assert Conservation.Reaches(t, ops[1..][1..][1..], t);
    assert Conservation.Reaches(s2, ops[1..][1..], t);
    assert Conservation.Reaches(s1, ops[1..], t);
    Conservation.RunLost(s0, ops, t, {});
    Conservation.LeaksMeans(s0, t, {});
  }

  function Ops(kernelEnd: nat): seq<Conservation.Op> {
    [Conservation.NewRegion(STACK, KERNEL_AREA, 0, 1), Conservation.MapRegion(0, FIRST, kernelEnd),
     Conservation.CopyRegion(0, CopyStep(false, false))]
  }

  lemma StepOne(s0: Conservation.State, s1: Conservation.State)
    requires s0 == Conservation.State(Empty(false), [], {}) && s1 == s0.(regions := [STACK_REGION])
    ensures var op := Conservation.NewRegion(STACK, KERNEL_AREA, 0, 1);
            s0.space.pm.Valid() && Conservation.Allowed(s0, op) && Conservation.Apply(s0, op) == Some(s1)
  {
    hide Empty, MapPages, UnmapPages, RegionMap, CopyOne, Alloc, OwnedBy, Leading;
    EmptyPm(false);
    assert [] + [STACK_REGION] == [STACK_REGION] && s0.lost + {} == s0.lost;
  }

  lemma StepTwo(s1: Conservation.State, s2: Conservation.State, f: Frame, g: Frame, y: Space, kernelEnd: nat)
    requires s1 == Conservation.State(Empty(false), [STACK_REGION], {}) && StackPages(f, s2.space, g, y)
    requires s2.regions == [STACK_REGION.(page := FIRST, frame := f)] && s2.lost == {}
    ensures var op := Conservation.MapRegion(0, FIRST, kernelEnd);
            s1.space.pm.Valid() && Conservation.Allowed(s1, op) && Conservation.Apply(s1, op) == Some(s2)
  {
    hide MapPages, UnmapPages, Lookup, Empty, InHuge, IsPage, RegionMap, CopyOne, Alloc, OwnedBy, Leading;
    FirstIsKernel();
    EmptyPm(false);
    EmptyGood(false);
    EmptyLookup(false, FIRST);
    assert [STACK_REGION][0 := s2.regions[0]] == s2.regions && s1.lost + {} == s1.lost;
    StackMaps(s1.space, s2.space, f, g, y, kernelEnd);
    assert Holds(STACK_REGION) == {};
  }

  lemma StackMaps(m: Space, w: Space, f: Frame, g: Frame, y: Space, kernelEnd: nat)
    requires m == Empty(false) && StackPages(f, w, g, y) && m.pm.Valid()
    ensures RegionMap(m, STACK_REGION, FIRST, kernelEnd) == Some((w, STACK_REGION.(page := FIRST, frame := f), true))
  {
    hide MapPages, Lookup, Empty, Alloc;
  }

  lemma StepThree(s2: Conservation.State, f: Frame, g: Frame, y: Space)
    requires StackPages(f, s2.space, g, y) && s2.regions == [STACK_REGION.(page := FIRST, frame := f)]
    ensures var op := Conservation.CopyRegion(0, CopyStep(false, false));
            && s2.space.pm.Valid() && Conservation.Allowed(s2, op)
            && Conservation.Apply(s2, op).Some? && Conservation.Apply(s2, op).value.lost != {}
  {
    hide MapPages, UnmapPages, Lookup, Empty, InHuge, IsPage, RegionMap, Alloc, OwnedBy, Leading, Find;
    assert g in FrameRange(g, 1);
    assert Present in LeafFlags(RegionAttr(STACK_REGION));
    SecondPage(s2.space);
    assert CopyOne(s2.space, s2.regions[0], CopyStep(false, false)).Copies?;
    assert g in Obtained(s2.space, 1);
  }

  /** The first kernel page is mapped, and the second is not. */
  lemma SecondPage(s: Space)
    requires Lookup(s.mem, s.cr3, FIRST) != ZERO && Unmapped(s, FIRST + 1, 1)
    ensures Find(s, 1) == Some(FIRST + 1)
  {
    hide Lookup, IsPage, InHuge;
    assert !RunUnmapped(s, FIRST, 1) && RunUnmapped(s, FIRST + 1, 1);
    FindIs(s, 1, FIRST + 1);
  }

  // ---- a switch to a forked task

  /** The kernel stacks of a task and of its fork: the same page, other frames. */
  const PARENT_STACK := Region(STACK, KERNEL_AREA, FIRST, DEVICE, 1)
  const CHILD_STACK := Region(STACK, KERNEL_AREA, FIRST, DEVICE + 1, 1)

  /** The parent's stack is mapped. */
  lemma ParentMapped() returns (s: Space, free: set<Frame>)
    ensures Good(s) && s.cr3 == 1 && |s.tasks| == 1 && s.tasks[0].vmm == 2 && s.tasks[0].queued && s.pm.Valid()
    ensures AllFree(s.pm, free) && |free| >= 13
    ensures Lookup(s.mem, 1, FIRST) == Entry(DEVICE, LeafFlags(RegionAttr(CHILD_STACK))) && Unmapped(s, FIRST + 1, 1)
    ensures RegionMapped(s, PARENT_STACK) && Word(s.mem, 2, 0) == ZERO
  {
    hide MapOne, Empty, Lookup, IsPage, AllFree, FreeOnes, SmallPages, Unmapped, LeafFlags, I4, InHuge, Coherent,
      Writables, TopGuarded, TablesStay, Undisturbed, OthersStay;
    EmptyFree(false);
    EmptyGood(false);
    var m, attr := Empty(false), RegionAttr(CHILD_STACK);
    free := MapSucceeds(m, FIRST, DEVICE, attr, FreeOnes());
    FirstMapped(m, DEVICE, attr);
    FirstIsKernel();
    EmptyLookup(false, FIRST);
    s := MapOne(m, FIRST, DEVICE, attr).value;
    MappingOne(m, FIRST, DEVICE, attr);
    MapOneTop(m, FIRST, DEVICE, attr);
    FollowsKeeps(m, s);
    assert Present in LeafFlags(attr) by { LeafThere(attr); }
    RootsStayFollows(m, s);
    EmptyRoots(false, 2);
    EmptyWords(false, 2, 0);
    assert RootsStay(m, s, 1);
  }

  lemma LeafThere(attr: Attr)
    ensures Present in LeafFlags(attr) && Huge !in LeafFlags(attr)
  {
  }

  /** The child's PML4 can be loaded, by way of the page after the stack. */
  lemma ChildActive(s: Space, free: set<Frame>) returns (left: set<Frame>)
    requires Good(s) && s.cr3 == 1 && |s.tasks| == 1 && s.tasks[0].vmm == 2 && s.tasks[0].queued && s.pm.Valid()
    requires AllFree(s.pm, free) && |free| >= 13
    requires Lookup(s.mem, 1, FIRST) == Entry(DEVICE, LeafFlags(RegionAttr(CHILD_STACK))) && Unmapped(s, FIRST + 1, 1)
    ensures Activable(s, 0, FIRST + 1) && Activate(s, 0, FIRST + 1).Some?
    ensures AllFree(Activate(s, 0, FIRST + 1).value.pm, left) && |left| >= 10
  {
    hide Lookup, IsPage, AllFree, LeafFlags, I4, InHuge, Coherent, Writables, SmallPages, Activate,
      PageTables.Space.NoEmptyTable;
    FirstIsKernel();
    LeafThere(RegionAttr(CHILD_STACK));
    var v := FIRST + 1;
    assert Anchored(s, v);
    AnchoredExact(s, v);
    left := CanActivate(s, 0, v, free);
  }

  /** Switching to the fork moves the stack of the kernel under everybody's feet; mapping it once more
      fails. */
  lemma SwitchMovesStack(kernelEnd: nat) returns (s: Space)
    requires kernelEnd > FIRST
    ensures Good(s) && Find(s, 1) == Some(FIRST + 1) && Activable(s, 0, FIRST + 1) && s.tasks[0].vmm != s.cr3
    ensures RegionMapped(s, PARENT_STACK)
    ensures RegionsFit(s, 0, FIRST + 1, [CHILD_STACK])
    ensures var l := Switch(s, 0, FIRST + 1, [CHILD_STACK], kernelEnd);
            && l.Looped? && l.ok && !SameKernel(s, l.space)
            && Lookup(s.mem, s.cr3, FIRST).frame == DEVICE
            && Lookup(l.space.mem, l.space.cr3, FIRST).frame == DEVICE + 1
            && l.space.pm.Valid() && MapRegions(l.space, [CHILD_STACK], kernelEnd) == Looped(l.space, 0, false)
  {
    hide Lookup, IsPage, AllFree, LeafFlags, I4, InHuge, Coherent, Writables, AgreeKernel, Activate, MapRegions,
      Unmapped, SyncReady, SlotTaken, PageTables.Space.NoEmptyTable;
    var free;
    s, free := ParentMapped();
    LeafThere(RegionAttr(CHILD_STACK));
    SecondPage(s);
    free := ChildActive(s, free);
    var a := Activate(s, 0, FIRST + 1).value;
    Activating(s, 0, FIRST + 1);
    FirstIsKernel();
    assert Lookup(a.mem, a.cr3, FIRST) == Lookup(s.mem, s.cr3, FIRST);
    LoopOnce(a, kernelEnd, free);
    assert PagesApart([CHILD_STACK]);
    ForkedSwitch(s, 0, FIRST + 1, [PARENT_STACK], [CHILD_STACK], kernelEnd, 0, FIRST);
    var t := Switch(s, 0, FIRST + 1, [CHILD_STACK], kernelEnd).space;
    SwitchMaps(s, 0, FIRST + 1, [CHILD_STACK], kernelEnd, 0);
    OnePageFails(t, CHILD_STACK, kernelEnd);
  }

  lemma LoopOnce(a: Space, kernelEnd: nat, free: set<Frame>)
    requires a.WF() && AllFree(a.pm, free) && |free| >= 3 && kernelEnd > FIRST
    requires Lookup(a.mem, a.cr3, FIRST) == Entry(DEVICE, LeafFlags(RegionAttr(CHILD_STACK)))
    ensures AllSmall(a, [CHILD_STACK]) && MapRegions(a, [CHILD_STACK], kernelEnd).Looped?
            && MapRegions(a, [CHILD_STACK], kernelEnd).ok
  {
    hide MapOne, AllFree, LeafFlags, I4, I3, I2, I1;
    FirstIsKernel();
    LeafThere(RegionAttr(CHILD_STACK));
    var left := MapSucceeds(a, FIRST, DEVICE + 1, RegionAttr(CHILD_STACK), free);
    var t := MapOne(a, FIRST, DEVICE + 1, RegionAttr(CHILD_STACK)).value;
    assert MapPages(t, FIRST + 1, DEVICE + 2, 0, RegionAttr(CHILD_STACK)) == Some(t);
    assert MapPages(a, FIRST, DEVICE + 1, 1, RegionAttr(CHILD_STACK)) == Some(t);
    assert [CHILD_STACK][1..] == [];
    assert MapRegions(t, [], kernelEnd) == Looped(t, 0, true);
  }

  // ---- a switch to a task with a user region

  /** Program code of one page at address 0x400000. */
  const USER_CODE := Region(CODE, USER_AREA, 0x400, DEVICE + 2, 1)

  lemma UserCode()
    ensures IsPage(0x400) && I4(0x400) == 0 && UserPages(0x400, 1)
  {
  }

  /** In the task's own address space the lower half is empty. */
  lemma UserHalfEmpty(s: Space)
    requires Good(s) && Activable(s, 0, FIRST + 1) && s.tasks[0].vmm == 2 && s.cr3 == 1 && Word(s.mem, 2, 0) == ZERO
    ensures Activate(s, 0, FIRST + 1).Some?
    ensures var a := Activate(s, 0, FIRST + 1).value;
            a.cr3 == 2 && Lookup(a.mem, 2, 0x400) == ZERO && !InHuge(a.mem, 2, 0x400)
  {
    hide Sync, Coherent, Writables, AgreeKernel, PageTables.Space.NoEmptyTable, Lookup, InHuge, SlotTaken;
    Activating(s, 0, FIRST + 1);
    var a := Activate(s, 0, FIRST + 1).value;
    if s.tasks[0].stale { Syncing(s, 2, FIRST + 1); }
    assert Word(a.mem, 2, 0) == ZERO;
    UserCode();
    NoPathThere(a, 0x400);
  }

  lemma NoPathThere(s: Space, u: nat)
    requires Word(s.mem, s.cr3, I4(u)) == ZERO
    ensures Lookup(s.mem, s.cr3, u) == ZERO && !InHuge(s.mem, s.cr3, u)
  {
    hide I4, I3, I2, I1;
    TopSlot(s.mem, s.cr3, I4(u));
    NoPath(s, u);
    assert Table(s.mem, N1(s.cr3, u)) == None && Table(s.mem, N2(s.cr3, u)) == None;
  }

  /** The task's code is mapped where it belongs, and user code can run there. */
  lemma SwitchMapsUser(kernelEnd: nat) returns (s: Space)
    requires FIRST < kernelEnd <= PAGE_LIMIT
    ensures Good(s) && Find(s, 1) == Some(FIRST + 1) && Activable(s, 0, FIRST + 1) && s.tasks[0].vmm != s.cr3
    ensures var l := Switch(s, 0, FIRST + 1, [USER_CODE], kernelEnd);
            && l.Looped? && l.ok && RegionMapped(l.space, USER_CODE) && Allows(l.space, 0x400, User)
            && !Set(FlagsWord(Lookup(l.space.mem, l.space.cr3, 0x400).flags), NoExec)
  {
    hide Lookup, AllFree, LeafFlags, InHuge, Coherent, Writables, AgreeKernel, Activate, Unmapped, SyncReady,
      SlotTaken, PageTables.Space.NoEmptyTable, ExactMap, Allows, FlagsWord, Set, RegionMapped, UserPages;
    var free;
    s, free := ParentMapped();
    LeafThere(RegionAttr(CHILD_STACK));
    SecondPage(s);
    free := ChildActive(s, free);
    UserHalfEmpty(s);
    UserCode();
    var a, r := Activate(s, 0, FIRST + 1).value, USER_CODE;
    Activating(s, 0, FIRST + 1);
    assert SmallPages(a, 0x400, 1) && RunUnmapped(a, 0x400, 1);
    UserIn(0x400, 1, kernelEnd);
    UnmappedExact(a, r.frame, 0x400, 1, RegionAttr(r), kernelEnd);
    PageSucceeds(a, r.frame, RegionAttr(r), free);
    var e := ExactMap(a, r.frame, 0x400, 1, RegionAttr(r), kernelEnd);
    RegionRights(a, r, kernelEnd, 0x400);
    assert [r][1..] == [];
    assert MapRegions(a, [r], kernelEnd) == Looped(e.space, 1, true) by {
      assert MapRegions(e.space, [], kernelEnd) == Looped(e.space, 0, true);
    }
    UserSwitch(s, 0, FIRST + 1, [r], kernelEnd);
  }

  lemma PageSucceeds(a: Space, f: Frame, attr: Attr, free: set<Frame>)
    requires a.pm.Valid() && AllFree(a.pm, free) && |free| >= 3
    ensures MapPages(a, 0x400, f, 1, attr).Some?
  {
    hide MapOne, AllFree;
    var left := MapSucceeds(a, 0x400, f, attr, free);
    var t := MapOne(a, 0x400, f, attr).value;
    assert MapPages(t, 0x401, f + 1, 0, attr) == Some(t);
  }
}
