/** States in which the kernel runs out of a PML4 slot: its image and its bitmap are mapped, and device
    memory fills the rest of the first slot of its area. A sync then goes through the first page of the
    next slot, or the heap grows into it during a fork. */
module SlotExamples {
  import opened Lists
  import opened PageBitmap
  import opened PageTables
  import opened PageSteps
  import opened PageMap
  import opened PageRefinement
  import opened PageRanges
  import opened KernelPages
  import opened Regions
  import opened RegionCopies
  import opened PageSync
  import opened KernelTop
  import opened Coherence
  import opened Forks
  import opened Supply
  import opened Examples

  /** The first page of the kernel image. */
  const IMAGE := 0xF_FFF8_0000

  /** The parent's stack, in the first kernel page. */
  const PARENT := Region(STACK, KERNEL_AREA, FIRST, DEVICE, 1)

  // ---- free frames are as they were

  /** The word of a frame that a sync neither clears nor copies is zero in all free frames. */
  ghost predicate Clean(s: Space) {
    s.pm.Valid() && forall g: nat :: s.pm.IsFree(g) ==> Word(s.mem, g, KERNEL_SLOT - 1) == ZERO
  }

  lemma CleanFits(s: Space)
    requires Clean(s)
    ensures CleanFrame(s)
  {
    hide FirstFit;
    var r := FirstFit(s.pm, 1, 0);
    if r.Some? { assert s.pm.RunFree(r.value, 1) && s.pm.IsFree(r.value); }
  }

  lemma WriteClean(s: Space, n: Node, i: nat, e: Entry)
    requires s.WF() && Clean(s) && s.InTree(n)
    ensures Clean(Write(s, n, i, e))
  {
    hide PageTables.Space.InTree;
    if Table(s.mem, n).Some? { assert !s.pm.IsFree(Table(s.mem, n).value); }
  }

  lemma EnsureClean(s: Space, n: Node, i: nat, flags: set<Flag>)
    requires s.WF() && Clean(s) && s.InTree(n) && EnsureTable(s, n, i, flags).Some?
    ensures Clean(EnsureTable(s, n, i, flags).value)
  {
    hide PageTables.Space.InTree, FirstFit;
    if Slot(s.mem, n, i) == ZERO {
      var g := FirstFit(s.pm, 1, 0).value;
      var t := Grow(s, n, i, g, flags);
      if Table(s.mem, n).Some? { assert !s.pm.IsFree(Table(s.mem, n).value); }
      forall x: nat | t.pm.IsFree(x) ensures Word(t.mem, x, KERNEL_SLOT - 1) == ZERO {
        assert t.pm.IsUsed(x) == s.pm.IsUsed(x) || x == g;
        assert Table(s.mem, n).Some? ==> x != g && s.pm.IsFree(x);
      }
    } else {
      WriteClean(s, n, i, Entry(Slot(s.mem, n, i).frame, Slot(s.mem, n, i).flags + flags));
    }
  }

  lemma MapClean(s: Space, v: nat, f: Frame, attr: Attr)
    requires s.WF() && Clean(s) && IsPage(v) && !InHuge(s.mem, s.cr3, v) && MapOne(s, v, f, attr).Some?
    ensures Clean(MapOne(s, v, f, attr).value)
  {
    hide I4, I3, I2, I1, EnsureTable, Clean, OthersStay, TopGuarded, Undisturbed, EmptyOnlyOn, TablesStay,
      PageTables.Space.WF;
    var flags, r := TableFlags(attr), s.cr3;
    WFPm(s);
    PathInTree(s, v);
    UpperEntries(s, v);
    EnsureClean(s, Top(r), I4(v), flags) by { assert s.InTree(Top(r)); }
    EnsuringTop(s, v, flags);
    var s1 := EnsureTop(s, I4(v), flags).value;
    assert Clean(s1) by { AlertClean(EnsureTable(s, Top(r), I4(v), flags).value); }
    PathInTree(s1, v);
    UpperEntries(s1, v);
    EnsureClean(s1, N1(r, v), I3(v), flags);
    EnsuringTable(s1, N1(r, v), I3(v), flags);
    var s2 := EnsureTable(s1, N1(r, v), I3(v), flags).value;
    PathInTree(s2, v);
    EnsureClean(s2, N2(r, v), I2(v), flags);
    EnsuringPath(s, v, flags);
    var s3 := EnsureTable(s2, N2(r, v), I2(v), flags).value;
    PathInTree(s3, v);
    WriteClean(s3, N3(r, v), I1(v), Entry(f, LeafFlags(attr)));
  }

  lemma AlertClean(s: Space)
    requires Clean(s)
    ensures Clean(Alert(s))
  {
  }

  // ---- many pages

  lemma {:induction false} PagesClean(s: Space, v: nat, f: Frame, num: nat, attr: Attr)
    requires s.WF() && Clean(s) && SmallPages(s, v, num) && MapPages(s, v, f, num, attr).Some?
    ensures Clean(MapPages(s, v, f, num, attr).value)
    decreases num
  {
    hide MapOne, Clean, InHuge, Lookup, IsPage, OthersStay, TopGuarded, Undisturbed, TablesStay, PageTables.Space.WF;
    WFPm(s);
    if num > 0 {
      var t := MapOne(s, v, f, attr).value;
      assert IsPage(v) && !InHuge(s.mem, s.cr3, v);
      MapClean(s, v, f, attr);
      MappingOne(s, v, f, attr);
      SmallPagesNext(s, t, v, num, Entry(f, LeafFlags(attr)));
      PagesClean(t, v + 1, f + 1, num - 1, attr);
    }
  }

  /** Mapping them keeps tasks coherent. */
  lemma PagesGood(s: Space, v: nat, f: Frame, num: nat)
    requires Good(s) && SmallPages(s, v, num) && MapPages(s, v, f, num, TEMPORARY).Some?
    ensures var t := MapPages(s, v, f, num, TEMPORARY).value;
            && Good(t) && t.cr3 == s.cr3 && TasksFollow(s, t) && Undisturbed(s, t)
            && RangeMapped(s, t, v, f, num, LeafFlags(TEMPORARY))
  {
    hide MapPages, PageTables.Space.NoEmptyTable, SmallPages, Writables, OthersStay, TopGuarded, TablesStay,
      Undisturbed, RangeMapped;
    MappingPages(s, v, f, num, TEMPORARY);
    MapPagesTop(s, v, f, num, TEMPORARY);
    FollowsKeeps(s, MapPages(s, v, f, num, TEMPORARY).value);
  }

  /** The image is mapped, and of the kernel area the first `n` pages. */
  ghost predicate Crowded(s: Space, n: nat) {
    && Lookup(s.mem, 1, IMAGE) != ZERO
    && forall u: nat :: FIRST <= u < WINDOW_PAGE ==>
         !InHuge(s.mem, 1, u)
         && Lookup(s.mem, 1, u) == if u < FIRST + n then Entry(DEVICE + (u - FIRST), LeafFlags(TEMPORARY)) else ZERO
  }

  /** What else is known of these states. */
  ghost predicate Ready(s: Space, stale: bool, free: set<Frame>) {
    && Good(s) && s.cr3 == 1 && s.tasks == [TaskVm(2, stale || (|s.tasks| > 0 && s.tasks[0].stale), true)]
    && Clean(s) && AllFree(s.pm, free) && s.Foreign(DEVICE) && |s.mem[DEVICE]| == PTE_COUNT
  }

  lemma ImageApart(u: nat)
    ensures IsPage(IMAGE) && (FIRST <= u < WINDOW_PAGE ==> u != IMAGE && IsPage(u))
  {
    if FIRST <= u < WINDOW_PAGE { BeforeWindow(u); }
  }

  lemma EmptyFrame(stale: bool, g: Frame)
    requires 3 <= g <= DEVICE
    ensures g in Empty(stale).mem && |Empty(stale).mem[g]| == PTE_COUNT
    ensures Word(Empty(stale).mem, g, KERNEL_SLOT - 1) == ZERO
  {
    assert Empty(stale).mem[g] == ZeroTable();
  }

  lemma EmptyReady(stale: bool)
    ensures Ready(Empty(stale), stale, FreeOnes())
  {
    hide AllFree, FreeOnes, Lookup, Coherent, Writables, PageTables.Space.WF, PageTables.Space.NoEmptyTable;
    var s := Empty(stale);
    EmptyGood(stale);
    EmptyFree(stale);
    assert s.NotTable(DEVICE) by {
      forall n | s.InTree(n) ensures Table(s.mem, n) != Some(DEVICE) {
        EmptyTables(stale, n);
        if n.Top? { EmptyRoots(stale, n.root); }
      }
    }
    EmptyFrame(stale, DEVICE);
    assert s.Foreign(DEVICE) && |s.mem[DEVICE]| == PTE_COUNT;
    forall g: nat | s.pm.IsFree(g) ensures Word(s.mem, g, KERNEL_SLOT - 1) == ZERO { EmptyFrame(stale, g); }
    assert s.tasks == [TaskVm(2, stale || s.tasks[0].stale, true)];
  }

  lemma ReadyAfter(s: Space, v: nat, f: Frame, num: nat, stale: bool, free: set<Frame>) returns (left: set<Frame>)
    requires Ready(s, stale, free) && SmallPages(s, v, num) && |free| >= 3 * num
    ensures MapPages(s, v, f, num, TEMPORARY).Some? && Ready(MapPages(s, v, f, num, TEMPORARY).value, stale, left)
    ensures |left| >= |free| - 3 * num
    ensures RangeMapped(s, MapPages(s, v, f, num, TEMPORARY).value, v, f, num, LeafFlags(TEMPORARY))
  {
    hide MapPages, AllFree, Clean, Coherent, Writables, PageTables.Space.WF, PageTables.Space.NoEmptyTable,
      PageTables.Space.NotTable, RangeMapped, SmallPages;
    WFPm(s);
    left := PagesSucceed(s, v, f, num, TEMPORARY, free);
    PagesClean(s, v, f, num, TEMPORARY);
    PagesGood(s, v, f, num);
  }

  lemma Crowd(n: nat, stale: bool) returns (s: Space, free: set<Frame>)
    requires 0 < n <= SLOT_PAGES
    ensures Ready(s, stale, free) && Crowded(s, n) && |free| >= 64
  {
    hide MapPages, Empty, Lookup, InHuge, IsPage, AllFree, FreeOnes, Ready, LeafFlags;
    EmptyReady(stale);
    EmptyFree(stale);
    var m := Empty(stale);
    EmptyGood(stale);
    ImageApart(IMAGE);
    EmptyLookup(stale, IMAGE);
    forall u: nat | FIRST <= u < WINDOW_PAGE
      ensures IsPage(u) && u != IMAGE && Lookup(m.mem, 1, u) == ZERO && !InHuge(m.mem, 1, u)
    {
      ImageApart(u);
      EmptyLookup(stale, u);
    }
    free := ReadyAfter(m, IMAGE, 0, 1, stale, FreeOnes());
    var m1 := MapPages(m, IMAGE, 0, 1, TEMPORARY).value;
    assert m1.cr3 == 1 by { ReadyRoot(m1, stale, free); }
    assert SmallPages(m1, FIRST, n);
    free := ReadyAfter(m1, FIRST, DEVICE, n, stale, free);
    s := MapPages(m1, FIRST, DEVICE, n, TEMPORARY).value;
    LeafThere(TEMPORARY);
    assert Lookup(s.mem, 1, IMAGE) == Lookup(m1.mem, 1, IMAGE);
  }

  lemma ReadyRoot(s: Space, stale: bool, free: set<Frame>)
    requires Ready(s, stale, free)
    ensures s.cr3 == 1 && s.pm.Valid()
  {
  }

  /** The page after those is what the kernel finds. */
  lemma CrowdedFind(s: Space, n: nat)
    requires s.cr3 == 1 && Crowded(s, n) && FIRST + n < WINDOW_PAGE
    ensures Find(s, 1) == Some(FIRST + n)
  {
    hide Lookup, InHuge, LeafFlags;
    LeafThere(TEMPORARY);
    forall q: nat | FIRST <= q < FIRST + n ensures !RunUnmapped(s, q, 1) { assert Lookup(s.mem, 1, q) != ZERO; }
    assert RunUnmapped(s, FIRST + n, 1);
    FindIs(s, 1, FIRST + n);
  }

  /** The slot after a full one is free. */
  lemma NextSlotFree(s: Space, n: nat)
    requires s.WF() && s.NoEmptyTable() && s.cr3 == 1 && Crowded(s, n) && n <= SLOT_PAGES
    ensures !SlotTaken(s, FIRST + SLOT_PAGES)
  {
    hide Lookup, InHuge, LeafFlags, PageTables.Space.WF, PageTables.Space.NoEmptyTable;
    var h := FIRST + SLOT_PAGES;
    BeforeWindow(h);
    SlotUsed(s, I4(h));
    forall u: nat ensures !Uses(s, I4(h), u) {
      if IsPage(u) && I4(u) == I4(h) {
        SlotOf(u);
        assert Lookup(s.mem, 1, u) == ZERO;
      }
    }
  }

  lemma SlotOf(u: nat)
    requires IsPage(u) && I4(u) == I4(FIRST + SLOT_PAGES)
    ensures FIRST + SLOT_PAGES <= u < FIRST + 2 * SLOT_PAGES
  {
  }

  // ---- a sync through the first page of a slot

  /** The first slot is full: a stale task is synced through the first page of the next slot, and its PML4
      then leads to a table that has been given back. */
  lemma SyncSpoils() returns (s: Space)
    ensures Good(s) && Crowded(s, SLOT_PAGES) && Find(s, 1) == Some(FIRST + SLOT_PAGES)
    ensures |s.tasks| == 1 && s.tasks[0] == TaskVm(2, true, true) && s.cr3 == 1
    ensures SyncReady(s, 2, FIRST + SLOT_PAGES) && !AgreeKernel(Sync(s, 2, FIRST + SLOT_PAGES).value.mem, 2, 1)
    ensures s.pm.Valid() && Activate(s, 0, FIRST + SLOT_PAGES).Some?
            && !Good(Activate(s, 0, FIRST + SLOT_PAGES).value)
  {
    hide MapOne, UnmapOne, Lookup, AllFree, Crowded, SlotTaken, AgreeKernel, LeafFlags, Clean;
    var free;
    s, free := Crowd(SLOT_PAGES, true);
    var v := FIRST + SLOT_PAGES;
    CrowdedFind(s, SLOT_PAGES);
    NextSlotFree(s, SLOT_PAGES);
    BeforeWindow(v);
    assert s.tasks[0] in s.tasks && s.IsRoot(2);
    assert Lookup(s.mem, 1, v) == ZERO by { assert RunUnmapped(s, v, 1); }
    var left := MapSucceeds(s, v, 2, TEMPORARY, free);
    assert SyncReady(s, 2, v);
    Syncing(s, 2, v);
    ActivatingExact(s, 0, v);
  }

  // ---- a fork during which the heap grows into the next slot

  /** A page can be mapped for the kernel while four frames are free. */
  lemma KernelSucceeds(s: Space, p: nat, free: set<Frame>) returns (left: set<Frame>)
    requires s.pm.Valid() && AllFree(s.pm, free) && |free| >= 4 && Find(s, 1) == Some(p)
    ensures MapKernel(s, 1).MappedAt? && MapKernel(s, 1).page == p
    ensures AllFree(MapKernel(s, 1).space.pm, left) && |left| >= |free| - 4
  {
    hide MapOne, AllFree, Find, Alloc;
    var f;
    f, left := AllocSucceeds(s.pm, free);
    var s0 := s.(pm := s.pm.Mark(f, 1, true));
    left := MapSucceeds(s0, p, f, KERNEL_PAGES, left);
    var t := MapOne(s0, p, f, KERNEL_PAGES).value;
    assert MapPages(t, p + 1, f + 1, 0, KERNEL_PAGES) == Some(t);
    assert MapPages(s0, p, f, 1, KERNEL_PAGES) == Some(t);
  }

  /** With one more page mapped, the slot is full. */
  lemma NowFull(s: Space, u: Space, t: Space, f: Frame)
    requires u.cr3 == t.cr3 == s.cr3 == 1 && Crowded(s, SLOT_PAGES - 1) && SameMap(s, u)
    requires RangeMapped(u, t, FIRST + SLOT_PAGES - 1, f, 1, LeafFlags(KERNEL_PAGES))
    ensures Find(t, 1) == Some(FIRST + SLOT_PAGES)
  {
    hide Lookup, InHuge, IsPage, LeafFlags;
    LeafThere(TEMPORARY);
    LeafThere(KERNEL_PAGES);
    var h := FIRST + SLOT_PAGES;
    forall q: nat | FIRST <= q < WINDOW_PAGE ensures Lookup(t.mem, 1, q) != ZERO <==> q < h {
      BeforeWindow(q);
      assert Lookup(u.mem, 1, q) == Lookup(s.mem, 1, q);
    }
    forall q: nat | FIRST <= q < h ensures !RunUnmapped(t, q, 1) { assert Lookup(t.mem, 1, q) != ZERO; }
    assert RunUnmapped(t, h, 1);
    FindIs(t, 1, h);
  }

  /** The heap grows for the structure of the copy, and has room then. */
  const GROWING := CopyStep(true, true)

  /** The copy takes the last page of the slot, so that the heap grows into the next. */
  lemma CopyGrows(s: Space, u: Space, free: set<Frame>)
    requires Crowded(s, SLOT_PAGES - 1) && Find(s, 1) == Some(FIRST + SLOT_PAGES - 1) && SameMap(s, u)
    requires u.cr3 == s.cr3 == 1 && u.WF() && u.NoEmptyTable() && AllFree(u.pm, free) && |free| >= 8
    ensures CopyAll(u, [PARENT], [GROWING]).Copies? && CopyAll(u, [PARENT], [GROWING]).ok
    ensures Growths(u, [PARENT], [GROWING]) == [FIRST + SLOT_PAGES]
  {
    hide Lookup, InHuge, IsPage, Crowded, AllFree, MapKernel, FillCopy, PageTables.Space.WF, Advances, ForeignRange,
      PagesAt, Unmapped, PageTables.Space.NoEmptyTable, Find, RangeMapped;
    var v := FIRST + SLOT_PAGES - 1;
    WFPm(u);
    assert Find(u, 1) == Some(v) by { SameFind(s, u); }
    var left := KernelSucceeds(u, v, free);
    MappingKernel(u, 1);
    var m := MapKernel(u, 1);
    NowFull(s, u, m.space, m.frame);
    left := KernelSucceeds(m.space, FIRST + SLOT_PAGES, left);
    var c := CopyOne(u, PARENT, GROWING);
    assert c.Copies? && c.ok;
    assert [PARENT][1..] == [] && [GROWING][1..] == [];
    assert CopyAll(c.space, [], []) == Copies(c.space, [], true) && Growths(c.space, [], []) == [];
    assert Growth(u, PARENT, GROWING) == Some(FIRST + SLOT_PAGES);
  }

  lemma SameFind(s: Space, t: Space)
    requires t.cr3 == s.cr3 && SameMap(s, t)
    ensures Find(t, 1) == Find(s, 1)
  {
    hide Lookup, InHuge, IsPage, Find;
    FindSame(s, t, 1);
  }

  lemma ParentCopyable(s: Space, free: set<Frame>)
    requires Ready(s, false, free) && Crowded(s, SLOT_PAGES - 1)
    ensures AllCopyable(s, [PARENT])
  {
    hide Lookup, InHuge, LeafFlags, PageTables.Space.NotTable;
    LeafThere(TEMPORARY);
    BeforeWindow(FIRST);
    assert Lookup(s.mem, 1, FIRST) == Entry(DEVICE, LeafFlags(TEMPORARY)) && !InHuge(s.mem, 1, FIRST);
    assert Copyable(s, PARENT);
  }

  /** All but the last page of the first slot are mapped: a fork of a task with one region of one page, during
      which the heap grows, queues a child whose PML4 lacks what the heap grew by. */
  lemma ForkSpoils() returns (s: Space)
    ensures Good(s) && s.pm.Valid() && Crowded(s, SLOT_PAGES - 1) && ForkReady(s, [PARENT])
    ensures Find(s, 1) == Some(FIRST + SLOT_PAGES - 1) && SlotTaken(s, FIRST + SLOT_PAGES - 1)
    ensures Fork(s, [PARENT], [GROWING]).Copies? && Fork(s, [PARENT], [GROWING]).ok
            && !Good(Fork(s, [PARENT], [GROWING]).space)
  {
    hide NewTask, NewReady, Lookup, InHuge, LeafFlags, Crowded, AllFree, SlotTaken, AgreeKernel, Clean, CopyAll, Find,
      Growths, AllCopyable, Coherent, Writables, PageTables.Space.WF, PageTables.Space.NoEmptyTable, SameMap, I4;
    var free;
    s, free := Crowd(SLOT_PAGES - 1, false);
    var v, h := FIRST + SLOT_PAGES - 1, FIRST + SLOT_PAGES;
    WFPm(s);
    CrowdedFind(s, SLOT_PAGES - 1);
    NextSlotFree(s, SLOT_PAGES - 1);
    LowestTaken(s, v);
    ParentCopyable(s, free);
    BeforeWindow(v);
    assert Lookup(s.mem, 1, v) == ZERO by { assert RunUnmapped(s, v, 1); }
    assert CleanFrame(s) by { CleanFits(s); }
    var left := NewSucceeds(s, v, free);
    NewTaskGood(s, v);
    CopyGrows(s, NewTask(s, v).value, left);
    Forking(s, [PARENT], [GROWING]);
    assert h in ForkGrowths(s, [PARENT], [GROWING]);
  }
}
