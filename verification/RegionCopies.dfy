/** Copying regions (kernel/mm/region.c `region_copy`, kernel/sched/task.c `task_copy`). The copy is filled
    through kernel pages that are mapped for the purpose; between mapping and filling them, the heap may
    grow by another. */
module RegionCopies {
  import opened Lists
  import opened PageBitmap
  import opened PageTables
  import opened PageSteps
  import opened PageMap
  import opened PageRefinement
  import opened PageRanges
  import opened PageOwnership
  import opened PageRoundTrip
  import opened KernelPages
  import opened Regions

  /** `vmm_map` for the kernel: memory, and where what was mapped. NoFrames is its null result; Stuck has no
      state, since there was no run of pages or no memory for a table, which the kernel does not check. */
  datatype Mapped = MappedAt(space: Space, page: nat, frame: Frame) | NoFrames | Stuck

  function MapKernel(s: Space, num: nat): (m: Mapped)
    requires s.pm.Valid()
    ensures m.MappedAt? ==> m.space.pm.Valid()
  {
    if num == 0 then NoFrames
    else
      match Find(s, num)
      case None => Stuck
      case Some(at) =>
        var (pm, got) := Alloc(s.pm, num, 0);
        match got
        case None => NoFrames
        case Some(f) =>
          match MapPages(s.(pm := pm), at, f, num, KERNEL_PAGES)
          case None => Stuck
          case Some(t) => MappedAt(t, at, f)
  }

  /** How the heap fares when the structure of a copy is allocated: whether it must grow by a page first,
      and whether it then has room. */
  datatype CopyStep = CopyStep(grows: bool, room: bool)

  /** Memory, the regions copied, and whether all of them were. */
  datatype CopyResult = Copies(space: Space, regions: seq<Region>, ok: bool) | NoMemory

  /** `heap_alloc` for the structure of a copy. */
  function Structure(s: Space, step: CopyStep): (r: CopyResult)
    requires s.pm.Valid()
    ensures r.Copies? ==> r.space.pm.Valid()
  {
    if !step.grows then Copies(s, [], step.room)
    else
      match MapKernel(s, 1)
      case Stuck => NoMemory
      case NoFrames => Copies(s, [], false)
      case MappedAt(t, _, _) => Copies(t, [], step.room)
  }

  /** `region_copy`: pages for the copy are mapped; if there is memory for its structure they are filled;
      and they are unmapped in any case. */
  function CopyOne(s: Space, r: Region, step: CopyStep): (c: CopyResult)
    requires s.pm.Valid()
    ensures c.Copies? ==> c.space.pm.Valid() && (c.ok ==> |c.regions| == 1)
  {
    match MapKernel(s, r.num)
    case Stuck => NoMemory
    case NoFrames => Copies(s, [], false)
    case MappedAt(s1, at, _) =>
      match Structure(s1, step)
      case NoMemory => NoMemory
      case Copies(s2, _, room) =>
        if room then var (t, c) := FillCopy(s2, r, at); Copies(t, [c], true)
        else Copies(UnmapPages(s2, at, r.num, true).0, [], false)
  }

  /** The loop of `task_copy` over the regions. */
  function CopyAll(s: Space, rs: seq<Region>, steps: seq<CopyStep>): (r: CopyResult)
    requires s.pm.Valid() && |steps| == |rs|
    ensures r.Copies? && r.ok ==> |r.regions| == |rs|
    decreases |rs|
  {
    if rs == [] then Copies(s, [], true)
    else
      match CopyOne(s, rs[0], steps[0])
      case NoMemory => NoMemory
      case Copies(t, c, false) => Copies(t, [], false)
      case Copies(t, c, true) =>
        match CopyAll(t, rs[1..], steps[1..])
        case NoMemory => NoMemory
        case Copies(u, cs, ok) => Copies(u, c + cs, ok)
  }

  // ---- mapping for the kernel

  /** Tables and frames in use are where they were, and tasks are told of what changed. */
  ghost predicate Advances(s: Space, t: Space) {
    Follows(s, t) && TopGuarded(s, t) && TablesStay(s, t) && Undisturbed(s, t) && t.NoEmptyTable()
  }

  lemma AdvancesTrans(s: Space, t: Space, u: Space)
    requires Advances(s, t) && Advances(t, u)
    ensures Advances(s, u)
  {
    hide PageTables.Space.NoEmptyTable, TopGuarded, TablesStay, Undisturbed, OthersStay, PageTables.Space.WF;
    FollowsTrans(s, t, u);
    StayTrans(s, t, u);
    GuardTrans(s, t, u);
    UndisturbedTrans(s, t, u);
  }

  /** Taking free frames. */
  lemma MarkingRun(s: Space, f: Frame, num: nat)
    requires s.WF() && s.pm.RunFree(f, num)
    ensures var t := s.(pm := s.pm.Mark(f, num, true));
            && t.WF() && (s.NoEmptyTable() ==> t.NoEmptyTable())
            && ForeignRange(t, f, num) && forall g: nat :: s.Foreign(g) ==> t.Foreign(g)
  {
    var t := s.(pm := s.pm.Mark(f, num, true));
    SameTree(s, t);
    forall g: nat | f <= g < f + num ensures t.Foreign(g) && |t.mem[g]| == PTE_COUNT {
      assert s.pm.IsFree(g) && s.pm.Covers(g);
      assert t.NotTable(g) by {
        forall n | t.InTree(n) ensures Table(t.mem, n) != Some(g) { assert s.InTree(n); }
      }
    }
    forall g: nat | s.Foreign(g) ensures t.Foreign(g) {
      assert !t.pm.IsFree(g) by { assert s.pm.IsUsed(g) ==> t.pm.IsUsed(g); }
      forall n | t.InTree(n) ensures Table(t.mem, n) != Some(g) { assert s.InTree(n); }
    }
  }

  /** What is found is unmapped, and no part of a large page. */
  lemma FoundUnmapped(s: Space, num: nat)
    requires s.WF() && Find(s, num).Some?
    ensures Unmapped(s, Find(s, num).value, num)
  {
    hide Lookup, InHuge;
    var at := Find(s, num).value;
    forall u: nat | at <= u < at + num
      ensures IsPage(u) && !InHuge(s.mem, s.cr3, u) && Lookup(s.mem, s.cr3, u) == ZERO
    {
      BeforeWindow(u);
      SmallUnmapped(s, u);
    }
  }

  lemma SmallUnmapped(s: Space, u: nat)
    requires s.WF() && IsPage(u) && Lookup(s.mem, s.cr3, u) == ZERO
    ensures !InHuge(s.mem, s.cr3, u)
  {
  }

  /** The pages from `at` on are now mapped to fresh frames. */
  ghost predicate FreshAt(s: Space, t: Space, at: nat, f: Frame, num: nat)
    requires s.pm.Valid() && t.pm.Valid()
  {
    && num > 0 && FIRST <= at && at + num <= WINDOW_PAGE && Unmapped(s, at, num) && s.pm.RunFree(f, num)
    && t.cr3 == s.cr3 && RangeMapped(s, t, at, f, num, LeafFlags(KERNEL_PAGES))
    && PagesAt(t, at, f, num) && ForeignRange(t, f, num)
  }

  /** Where the pages go and which frames they get; and when there are none. */
  lemma KernelExact(s: Space, num: nat)
    requires s.pm.Valid()
    ensures match MapKernel(s, num)
            case NoFrames => num == 0 || forall f: nat :: !s.pm.Fits(f, num, 0)
            case MappedAt(t, at, f) => IsLowest(s, num, FIRST, at) && IsFirstFit(s.pm, num, 0, Some(f))
            case Stuck => num > 0
  {
    hide MapPages, Find, IsLowest, IsFirstFit, Bitmap.Fits;
    AllocExact(s.pm, num, 0);
  }

  lemma MappingKernel(s: Space, num: nat)
    requires s.WF() && s.NoEmptyTable() && MapKernel(s, num).MappedAt?
    ensures var m := MapKernel(s, num); Advances(s, m.space) && FreshAt(s, m.space, m.page, m.frame, num)
  {
    hide MapPages, Find, Lookup, InHuge, I4, PageTables.Space.NoEmptyTable, PageTables.Space.NotTable, OthersStay,
      TopGuarded, TablesStay;
    var m := MapKernel(s, num);
    var f, t := m.frame, m.space;
    FoundUnmapped(s, num);
    MarkingRun(s, f, num);
    var s0 := s.(pm := s.pm.Mark(f, num, true));
    MappingPages(s0, m.page, f, num, KERNEL_PAGES);
    FramesStay(s0, t, f, num);
    FreshPagesAt(s0, t, m.page, f, num);
    MarkedAdvances(s, s0, t);
  }

  lemma FreshPagesAt(s: Space, t: Space, at: nat, f: Frame, num: nat)
    requires t.cr3 == s.cr3 && SmallPages(s, at, num) && RangeMapped(s, t, at, f, num, LeafFlags(KERNEL_PAGES))
    ensures PagesAt(t, at, f, num)
  {
    hide Lookup, InHuge, IsPage;
    LeafNotZero();
    forall u: nat | at <= u < at + num ensures !InHuge(t.mem, t.cr3, u) {
      assert IsPage(u) && !InHuge(s.mem, s.cr3, u);
    }
  }

  /** Whether frames were taken before does not matter. */
  lemma MarkedAdvances(s: Space, s0: Space, t: Space)
    requires s0 == s.(pm := s0.pm) && s0.pm.base == s.pm.base && s0.pm.usable == s.pm.usable && s.pm.Valid()
    requires Follows(s0, t) && TopGuarded(s0, t) && TablesStay(s0, t) && Undisturbed(s0, t) && t.NoEmptyTable()
    requires forall g: nat :: s.Foreign(g) ==> s0.Foreign(g)
    ensures Advances(s, t)
  {
    hide PageTables.Space.NoEmptyTable, PageTables.Space.NotTable;
    SameTree(s, s0);
    forall g: nat | s.Foreign(g) ensures t.Foreign(g) && t.mem[g] == s.mem[g] { assert s0.Foreign(g); }
  }

  lemma FramesStay(s: Space, t: Space, f: Frame, num: nat)
    requires Undisturbed(s, t) && ForeignRange(s, f, num)
    ensures ForeignRange(t, f, num)
  {
    hide PageTables.Space.NotTable;
    forall g: nat | f <= g < f + num ensures t.Foreign(g) && |t.mem[g]| == PTE_COUNT { assert s.Foreign(g); }
  }

  /** Free frames and frames that are in use do not overlap. */
  lemma FreeApart(s: Space, f: Frame, sf: Frame, num: nat)
    requires s.pm.Valid() && s.pm.RunFree(f, num) && ForeignRange(s, sf, num)
    ensures f + num <= sf || sf + num <= f
  {
    hide PageTables.Space.NotTable;
    var g := if f < sf then sf else f;
    assert f <= g < f + num ==> s.pm.IsFree(g);
    assert sf <= g < sf + num ==> s.Foreign(g);
  }

  // ---- the steps of one copy

  /** A region that can be copied: it is mapped, and its frames are in use and hold no table. */
  ghost predicate Copyable(s: Space, r: Region)
    requires s.pm.Valid()
  {
    RegionMapped(s, r) && ForeignRange(s, r.frame, r.num)
  }

  /** While the copy is filled: its pages are mapped to its frames, those of the region to the region's. */
  ghost predicate Filling(s: Space, r: Region, at: nat, f: Frame) {
    && s.WF() && s.NoEmptyTable() && PagesAt(s, at, f, r.num) && ForeignRange(s, f, r.num) && Copyable(s, r)
    && (f + r.num <= r.frame || r.frame + r.num <= f)
  }

  /** A region stays where it is while unmapped pages are mapped. */
  lemma RegionStays(s: Space, t: Space, r: Region, at: nat, f: Frame, num: nat)
    requires t.cr3 == s.cr3 && RegionMapped(s, r) && Unmapped(s, at, num)
    requires RangeMapped(s, t, at, f, num, LeafFlags(KERNEL_PAGES))
    ensures RegionMapped(t, r)
  {
    hide Lookup, InHuge, IsPage;
    forall u: nat | r.page <= u < r.page + r.num
      ensures Lookup(t.mem, t.cr3, u) == Lookup(s.mem, s.cr3, u) && !InHuge(t.mem, t.cr3, u)
    {
      assert IsPage(u) && !InHuge(s.mem, s.cr3, u) && Lookup(s.mem, s.cr3, u) != ZERO;
      assert !(at <= u < at + num);
    }
  }

  /** The pages for the copy are mapped. */
  lemma BeginsFilling(s: Space, r: Region)
    requires s.WF() && s.NoEmptyTable() && Copyable(s, r) && MapKernel(s, r.num).MappedAt?
    ensures var m := MapKernel(s, r.num); Filling(m.space, r, m.page, m.frame)
  {
    hide MapKernel, PageTables.Space.NoEmptyTable, PageTables.Space.NotTable, TopGuarded, TablesStay, Undisturbed,
      OthersStay, ForeignRange, PagesAt, RangeMapped;
    MappingKernel(s, r.num);
    var m := MapKernel(s, r.num);
    RegionStays(s, m.space, r, m.page, m.frame, r.num);
    FramesStay(s, m.space, r.frame, r.num);
    FreeApart(s, m.frame, r.frame, r.num);
  }

  /** The page that the heap grows by, if it does. */
  function Grows(s: Space, step: CopyStep): Option<nat>
    requires s.pm.Valid()
  {
    if step.grows && MapKernel(s, 1).MappedAt? then Some(MapKernel(s, 1).page) else None
  }

  /** Every page keeps its entry, but for the one that the heap grew by. */
  ghost predicate MapGrown(s: Space, t: Space, grown: Option<nat>) {
    forall u: nat :: IsPage(u) ==>
      && InHuge(t.mem, s.cr3, u) == InHuge(s.mem, s.cr3, u)
      && if grown == Some(u) then Lookup(s.mem, s.cr3, u) == ZERO && Lookup(t.mem, s.cr3, u) != ZERO
         else Lookup(t.mem, s.cr3, u) == Lookup(s.mem, s.cr3, u)
  }

  /** The structure of the copy is allocated. */
  lemma KeepsFilling(s: Space, r: Region, step: CopyStep, at: nat, f: Frame)
    requires Filling(s, r, at, f) && Structure(s, step).Copies?
    ensures var t := Structure(s, step).space;
            Filling(t, r, at, f) && Advances(s, t) && MapGrown(s, t, Grows(s, step))
    ensures Grows(s, step).Some? ==> FIRST <= Grows(s, step).value < WINDOW_PAGE
  {
    hide MapKernel, PageTables.Space.NoEmptyTable, PageTables.Space.NotTable, ForeignRange, PagesAt, Lookup, InHuge,
      IsPage, Advances, PageTables.Space.WF;
    WFPm(s);
    AdvancesSelf(s);
    if Grows(s, step).Some? {
      MappingKernel(s, 1);
      var m := MapKernel(s, 1);
      AdvancesFacts(s, m.space);
      RegionStays(s, m.space, r, m.page, m.frame, 1);
      RegionStays(s, m.space, r.(page := at, frame := f), m.page, m.frame, 1);
      FramesStay(s, m.space, r.frame, r.num);
      FramesStay(s, m.space, f, r.num);
      OneGrown(s, m.space, m.page, m.frame);
    }
  }

  lemma OneGrown(s: Space, t: Space, h: nat, f: Frame)
    requires t.cr3 == s.cr3 && Unmapped(s, h, 1) && RangeMapped(s, t, h, f, 1, LeafFlags(KERNEL_PAGES))
    ensures MapGrown(s, t, Some(h))
  {
    hide Lookup, InHuge, IsPage;
    LeafNotZero();
  }

  lemma AdvancesFacts(s: Space, t: Space)
    requires Advances(s, t)
    ensures t.WF() && t.NoEmptyTable() && t.cr3 == s.cr3 && Undisturbed(s, t)
  {
  }

  lemma AdvancesSelf(s: Space)
    requires s.WF() && s.NoEmptyTable()
    ensures Advances(s, s) && MapGrown(s, s, None)
  {
    hide PageTables.Space.NoEmptyTable, PageTables.Space.NotTable, PageTables.Space.WF, Lookup, InHuge, IsPage;
    UndisturbedSelf(s);
    forall i: nat | s.HasSlot(Top(s.cr3), i)
      ensures SameEntry(Slot(s.mem, Top(s.cr3), i), Slot(s.mem, Top(s.cr3), i)) {}
  }

  /** The pages are filled if there is a structure for the copy. */
  function Fill(s: Space, r: Region, at: nat, room: bool): (t: Space)
    ensures t.pm == s.pm
  {
    if room then CopyPages(s, at, r.page, r.num) else s
  }

  /** No frame other than those of the copy changes. */
  ghost predicate OnlyFrames(s: Space, u: Space, f: Frame, num: nat) {
    forall g: nat :: g in s.mem && !(f <= g < f + num) ==> g in u.mem && u.mem[g] == s.mem[g]
  }

  /** Filling them leaves the tables alone. */
  lemma FillingPages(s: Space, r: Region, at: nat, f: Frame, room: bool)
    requires Filling(s, r, at, f)
    ensures var u := Fill(s, r, at, room);
            && u.WF() && u.cr3 == s.cr3 && SameTables(s, u) && OnlyFrames(s, u, f, r.num)
            && (room ==> SameContents(s, r.frame, u, f, r.num))
  {
    hide PagesAt, ForeignRange, PageTables.Space.NoEmptyTable, PageTables.Space.NotTable, Copied, CopyPages,
      PageTables.Space.WF;
    if room {
      CopyingPages(s, at, r.page, r.num, f, r.frame);
      CopiedSame(s, Fill(s, r, at, room), f, r.frame, r.num);
    } else {
      CopiedNothing(s, f, r.frame);
    }
  }

  /** What is known of filled pages. */
  lemma FilledPages(s: Space, r: Region, at: nat, f: Frame, u: Space)
    requires Filling(s, r, at, f) && u.WF() && SameTables(s, u) && OnlyFrames(s, u, f, r.num)
    ensures u.NoEmptyTable() && SameMap(s, u) && PagesAt(u, at, f, r.num)
    ensures forall g: nat :: s.NotTable(g) == u.NotTable(g)
  {
    hide PagesAt, ForeignRange, PageTables.Space.NotTable, SameTables, Lookup, InHuge, PageTables.Space.WF;
    SameTablesFacts(s, u, {});
    SameTablesRoot(s, u);
    PagesAtSame(s, u, at, f, r.num);
  }

  lemma SameTablesRoot(s: Space, t: Space)
    requires SameTables(s, t)
    ensures t.cr3 == s.cr3 && t.pm == s.pm
  {
  }

  lemma CopiedSame(s: Space, t: Space, f: Frame, sf: Frame, num: nat)
    requires Copied(s, t, f, sf, num)
    ensures SameContents(s, sf, t, f, num) && OnlyFrames(s, t, f, num)
  {
  }

  lemma SameTablesFollows(s: Space, t: Space)
    requires s.WF() && t.WF() && SameTables(s, t)
    ensures Follows(s, t) && TopGuarded(s, t) && TablesStay(s, t) && TablesStay(t, s)
  {
    SameTree(s, t);
    assert s.InTree(Top(s.cr3));
  }

  /** What unmapping the pages of the copy does. */
  ghost predicate Recedes(s: Space, t: Space) {
    Follows(s, t) && TopGuarded(s, t) && TablesStay(t, s) && Undisturbed(s, t) && t.NoEmptyTable()
  }

  lemma UnmappingFilled(s: Space, at: nat, f: Frame, num: nat)
    requires s.WF() && s.NoEmptyTable() && PagesAt(s, at, f, num)
    ensures var t := UnmapPages(s, at, num, true).0; Recedes(s, t) && RangeUnmapped(s, t, at, num)
  {
    hide UnmapPages, Lookup, InHuge, I4, OthersStay, TopGuarded, TablesStay, Undisturbed, PageTables.Space.WF;
    var k := UnmappingPages(s, at, num, true);
  }

  lemma RecedesRoot(s: Space, t: Space)
    requires Recedes(s, t)
    ensures t.cr3 == s.cr3 && Undisturbed(s, t)
  {
  }

  /** The pages of the copy are mapped (`s1`), the heap grows or not (`s2`), they are filled or not (`s3`)
      and unmapped (`t`). */
  lemma GrownBack(s: Space, s1: Space, s2: Space, s3: Space, t: Space, at: nat, f: Frame, num: nat, grown: Option<nat>)
    requires t.cr3 == s3.cr3 == s2.cr3 == s1.cr3 == s.cr3 && Unmapped(s, at, num)
             && RangeMapped(s, s1, at, f, num, LeafFlags(KERNEL_PAGES))
    requires MapGrown(s1, s2, grown) && SameMap(s2, s3) && RangeUnmapped(s3, t, at, num)
    ensures MapGrown(s, t, grown)
  {
    hide Lookup, InHuge, IsPage;
    LeafNotZero();
  }

  /** There and back: what was in use at the start is in use at the end, and as it was. */
  lemma BackAdvances(s: Space, s2: Space, s3: Space, t: Space, f: Frame, num: nat, grown: Option<nat>)
    requires s.WF() && s.NoEmptyTable() && Advances(s, s2) && s.pm.RunFree(f, num)
    requires s3.WF() && SameTables(s2, s3) && OnlyFrames(s2, s3, f, num)
             && forall g: nat :: s2.NotTable(g) == s3.NotTable(g)
    requires Recedes(s3, t) && MapGrown(s, t, grown)
    ensures Advances(s, t)
  {
    hide PageTables.Space.NoEmptyTable, PageTables.Space.NotTable, TopGuarded, TablesStay, OthersStay, SameTables,
      PageTables.Space.WF, Lookup, InHuge;
    SameTablesFollows(s2, s3);
    SameTablesRoot(s2, s3);
    FollowsTrans(s, s2, s3);
    FollowsTrans(s, s3, t);
    GuardTrans(s, s2, s3);
    GuardTrans(s, s3, t);
    StayTrans(s, s2, s3);
    TablesBack(s, s3, t);
    BackUndisturbed(s, s2, s3, t, f, num);
  }

  lemma BackUndisturbed(s: Space, s2: Space, s3: Space, t: Space, f: Frame, num: nat)
    requires Undisturbed(s, s2) && s.pm.RunFree(f, num) && s3.pm == s2.pm && OnlyFrames(s2, s3, f, num)
    requires (forall g: nat :: s2.NotTable(g) == s3.NotTable(g)) && Undisturbed(s3, t)
    ensures Undisturbed(s, t)
  {
    hide PageTables.Space.NotTable;
    forall g: nat | s.Foreign(g) ensures t.Foreign(g) && t.mem[g] == s.mem[g] {
      assert !(f <= g < f + num);
      assert s2.Foreign(g) && s3.Foreign(g);
    }
  }

  // ---- one copy

  /** The page that the heap grows by during the copy, if it does. */
  function Growth(s: Space, r: Region, step: CopyStep): Option<nat>
    requires s.pm.Valid()
  {
    match MapKernel(s, r.num)
    case MappedAt(t, _, _) => Grows(t, step)
    case _ => None
  }

  /** Everything that was in use is as it was, whether the copy succeeds or not. */
  lemma CopyKeeps(s: Space, r: Region, step: CopyStep)
    requires s.WF() && s.NoEmptyTable() && Copyable(s, r) && CopyOne(s, r, step).Copies?
    ensures var t := CopyOne(s, r, step).space; Advances(s, t) && MapGrown(s, t, Growth(s, r, step))
    ensures Growth(s, r, step).Some? ==> FIRST <= Growth(s, r, step).value < WINDOW_PAGE
  {
    hide MapKernel, UnmapPages, Structure, Filling, MapGrown, Advances, Recedes, SameTables, PagesAt, Copyable,
      Lookup, PageTables.Space.WF, PageTables.Space.NoEmptyTable, Grows, ForeignRange, Unmapped, RangeMapped,
      RangeUnmapped;
    WFPm(s);
    if MapKernel(s, r.num).MappedAt? {
      var m := MapKernel(s, r.num);
      var s1, at, f := m.space, m.page, m.frame;
      MappingKernel(s, r.num);
      BeginsFilling(s, r);
      AdvancesFacts(s, s1);
      WFPm(s1);
      KeepsFilling(s1, r, step, at, f);
      var s2 := Structure(s1, step).space;
      var s3 := Fill(s2, r, at, Structure(s1, step).ok);
      var t := UnmapPages(s3, at, r.num, true).0;
      AdvancesTrans(s, s1, s2);
      AdvancesFacts(s1, s2);
      FillingPages(s2, r, at, f, Structure(s1, step).ok);
      FilledPages(s2, r, at, f, s3);
      UnmappingFilled(s3, at, f, r.num);
      RecedesRoot(s3, t);
      GrownBack(s, s1, s2, s3, t, at, f, r.num, Grows(s1, step));
      BackAdvances(s, s2, s3, t, f, r.num, Grows(s1, step));
    } else {
      AdvancesSelf(s);
    }
  }

  /** Filled frames hold what the region's hold. */
  lemma FilledForeign(s: Space, r: Region, f: Frame, u: Space)
    requires s.pm.Valid() && u.pm == s.pm && ForeignRange(s, f, r.num) && ForeignRange(s, r.frame, r.num)
    requires SameContents(s, r.frame, u, f, r.num) && forall g: nat :: s.NotTable(g) == u.NotTable(g)
    ensures ForeignRange(u, f, r.num)
  {
    hide PageTables.Space.NotTable;
    forall g: nat | f <= g < f + r.num ensures u.Foreign(g) && |u.mem[g]| == PTE_COUNT {
      assert s.Foreign(g) && s.Foreign(r.frame + (g - f));
      assert CopiedAt(s, u, f, r.frame, g);
    }
  }

  /** Contents on their way from the region (`s`) to the copy (`t`). */
  lemma ContentsArrive(s: Space, s2: Space, s3: Space, t: Space, sf: Frame, f: Frame, num: nat)
    requires Undisturbed(s, s2) && Undisturbed(s3, t) && ForeignRange(s, sf, num) && ForeignRange(s3, f, num)
    requires SameContents(s2, sf, s3, f, num)
    ensures SameContents(s, sf, t, f, num)
  {
    hide PageTables.Space.NotTable;
    forall g: nat | f <= g < f + num ensures CopiedAt(s, t, f, sf, g) {
      assert s.Foreign(sf + (g - f)) && s3.Foreign(g) && CopiedAt(s2, s3, f, sf, g);
    }
  }

  /** A copy that succeeds has the same kind, address and length, and equal contents in frames that were
      free before. */
  lemma CopyYields(s: Space, r: Region, step: CopyStep)
    requires s.WF() && s.NoEmptyTable() && Copyable(s, r) && CopyOne(s, r, step).Copies? && CopyOne(s, r, step).ok
    ensures var (t, c) := (CopyOne(s, r, step).space, CopyOne(s, r, step).regions[0]);
            && t.pm.Valid() && c == r.(frame := c.frame) && s.pm.RunFree(c.frame, r.num) && r.num > 0
            && ForeignRange(t, c.frame, r.num) && SameContents(s, r.frame, t, c.frame, r.num)
            && MapKernel(s, r.num).MappedAt? && c.frame == MapKernel(s, r.num).frame
  {
    hide MapKernel, UnmapPages, Structure, MapGrown, Advances, Recedes, SameTables, PagesAt, Lookup, SameContents,
      PageTables.Space.NoEmptyTable, Grows, ForeignRange, Unmapped, RangeMapped, RangeUnmapped,
      PageTables.Space.NotTable;
    var m := MapKernel(s, r.num);
    var s1, at, f := m.space, m.page, m.frame;
    MappingKernel(s, r.num);
    BeginsFilling(s, r);
    KeepsFilling(s1, r, step, at, f);
    var s2 := Structure(s1, step).space;
    var s3 := Fill(s2, r, at, true);
    AdvancesTrans(s, s1, s2);
    AdvancesFacts(s, s2);
    FillingPages(s2, r, at, f, true);
    FilledPages(s2, r, at, f, s3);
    FirstFrame(s3, at, f, r.num);
    FilledForeign(s2, r, f, s3);
    UnmappingFilled(s3, at, f, r.num);
    var t := UnmapPages(s3, at, r.num, true).0;
    RecedesRoot(s3, t);
    FramesStay(s3, t, f, r.num);
    ContentsArrive(s, s2, s3, t, r.frame, f, r.num);
  }

  /** Pages that were mapped keep their entries. */
  ghost predicate Retains(s: Space, t: Space) {
    forall u: nat :: IsPage(u) && Lookup(s.mem, s.cr3, u) != ZERO ==>
      Lookup(t.mem, s.cr3, u) == Lookup(s.mem, s.cr3, u) && InHuge(t.mem, s.cr3, u) == InHuge(s.mem, s.cr3, u)
  }

  lemma GrownRetains(s: Space, t: Space, grown: Option<nat>)
    requires MapGrown(s, t, grown)
    ensures Retains(s, t)
  {
    hide Lookup, InHuge, IsPage;
  }

  // ---- who owns the frames

  /** The frames that a copy obtains, whether or not it succeeds. */
  function Obtained(s: Space, num: nat): set<Frame>
    requires s.pm.Valid()
  {
    if MapKernel(s, num).MappedAt? then FrameRange(MapKernel(s, num).frame, num) else {}
  }

  lemma KernelOwned(s: Space, num: nat, held: set<Frame>)
    requires s.WF() && s.NoEmptyTable() && Owned(s, held) && MapKernel(s, num).MappedAt?
    ensures var m := MapKernel(s, num);
            && Owned(m.space, held) && Obtained(s, num) !! held
            && OwnedBy(m.space, m.page, num) == Obtained(s, num)
  {
    hide MapPages, Find, Lookup, InHuge, Owned, OwnedBy, RangeMapped, PagesAt, ForeignRange, FrameRange, Advances,
      PageTables.Space.NoEmptyTable, PageTables.Space.NotTable;
    var m := MapKernel(s, num);
    var f := m.frame;
    MappingKernel(s, num);
    TakingRun(s, f, num, held);
    var s0 := s.(pm := s.pm.Mark(f, num, true));
    assert NoOwner(s0, m.page, num);
    NoOwnerNone(s0, m.page, num);
    OwnMapPages(s0, m.page, f, num, KERNEL_PAGES, held + FrameRange(f, num));
    assert held + FrameRange(f, num) + {} - TakenFrames(f, num, KERNEL_PAGES) == held;
    OwnedByRange(s, m.space, m.page, f, num, KERNEL_PAGES);
  }

  lemma SameOwners(s: Space, t: Space, at: nat, f: Frame, num: nat)
    requires t.cr3 == s.cr3 && PagesAt(s, at, f, num) && Retains(s, t)
    ensures OwnedBy(t, at, num) == OwnedBy(s, at, num)
  {
    hide Lookup, InHuge, IsPage;
    forall u: nat | at <= u < at + num ensures Lookup(t.mem, t.cr3, u) == Lookup(s.mem, s.cr3, u) {
      assert IsPage(u) && Lookup(s.mem, s.cr3, u) != ZERO;
    }
  }

  lemma SameRetains(s: Space, t: Space, u: Space)
    requires t.cr3 == s.cr3 && Retains(s, t) && SameMap(t, u)
    ensures Retains(s, u)
  {
    hide Lookup, InHuge, IsPage;
  }

  lemma UnmapKernelOwned(s: Space, at: nat, f: Frame, num: nat, held: set<Frame>)
    requires s.WF() && s.NoEmptyTable() && Owned(s, held) && PagesAt(s, at, f, num)
    ensures Owned(UnmapPages(s, at, num, true).0, held + OwnedBy(s, at, num))
  {
    hide UnmapPages, Owned, Lookup, InHuge, IsPage;
    OwnUnmapPages(s, at, num, true, held);
    LeadingAll(s, at, num);
  }

  /** A copy keeps the owners apart: the frames it obtains go to the caller, a page that the heap grew by owns
      its frame. */
  lemma CopyOwned(s: Space, r: Region, step: CopyStep, held: set<Frame>)
    requires s.WF() && s.NoEmptyTable() && Owned(s, held) && Copyable(s, r) && CopyOne(s, r, step).Copies?
    ensures Owned(CopyOne(s, r, step).space, held + Obtained(s, r.num)) && Obtained(s, r.num) !! held
  {
    hide MapKernel, UnmapPages, MapGrown, Advances, SameTables, PagesAt, Lookup, SameContents, SameMap, OwnedBy,
      Owned, PageTables.Space.NoEmptyTable, ForeignRange, RangeMapped, PageTables.Space.NotTable, PageTables.Space.WF,
      Filling;
    WFPm(s);
    if MapKernel(s, r.num).MappedAt? {
      var m := MapKernel(s, r.num);
      var s1, at, f := m.space, m.page, m.frame;
      MappingKernel(s, r.num);
      AdvancesFacts(s, s1);
      WFPm(s1);
      KernelOwned(s, r.num, held);
      BeginsFilling(s, r);
      KeepsFilling(s1, r, step, at, f);
      var s2 := Structure(s1, step).space;
      AdvancesFacts(s1, s2);
      assert Owned(s2, held) by { if Grows(s1, step).Some? { KernelOwned(s1, 1, held); } }
      var s3 := Fill(s2, r, at, Structure(s1, step).ok);
      FillingPages(s2, r, at, f, Structure(s1, step).ok);
      FilledPages(s2, r, at, f, s3);
      SameTablesFacts(s2, s3, held);
      GrownRetains(s1, s2, Grows(s1, step));
      SameRetains(s1, s2, s3);
      SameOwners(s1, s3, at, f, r.num);
      UnmapKernelOwned(s3, at, f, r.num, held);
    } else {
      assert held + {} == held;
    }
  }

  // ---- all copies

  lemma RetainsTrans(s: Space, t: Space, u: Space)
    requires t.cr3 == s.cr3 && Retains(s, t) && Retains(t, u)
    ensures Retains(s, u)
  {
    hide Lookup, InHuge, IsPage;
  }

  /** What could be copied still can. */
  lemma StillCopyable(s: Space, t: Space, r: Region)
    requires s.pm.Valid() && Copyable(s, r) && t.cr3 == s.cr3 && Retains(s, t) && Undisturbed(s, t)
    ensures Copyable(t, r)
  {
    hide PageTables.Space.NotTable, Lookup, InHuge, IsPage;
    FramesStay(s, t, r.frame, r.num);
    forall u: nat | r.page <= u < r.page + r.num
      ensures Lookup(t.mem, t.cr3, u) == Lookup(s.mem, s.cr3, u) && !InHuge(t.mem, t.cr3, u)
    {
      assert IsPage(u) && !InHuge(s.mem, s.cr3, u) && Lookup(s.mem, s.cr3, u) != ZERO;
    }
  }

  /** No frame that was in use has been given back. */
  ghost predicate NoneFreed(s: Space, t: Space) {
    s.pm.Valid() && t.pm.Valid() && forall g: nat :: t.pm.IsFree(g) ==> s.pm.IsFree(g)
  }

  lemma NothingFreed(s: Space, t: Space)
    requires s.WF() && Advances(s, t)
    ensures NoneFreed(s, t)
  {
    FollowsRoots(s, t);
    SameTree(s, t);
    forall g: nat | t.pm.IsFree(g) ensures s.pm.IsFree(g) {
      assert s.pm.Covers(g) && IsFrame(s.mem, g);
      if !s.pm.IsFree(g) {
        assert !s.Foreign(g) && !s.NotTable(g);
        var n :| s.InTree(n) && Table(s.mem, n) == Some(g);
        assert false;
      }
    }
  }

  ghost predicate AllCopyable(s: Space, rs: seq<Region>)
    requires s.pm.Valid()
  {
    forall i :: 0 <= i < |rs| ==> Copyable(s, rs[i])
  }

  /** The frames of the copies were free, and are in use without a table. */
  ghost predicate Fresh(s: Space, t: Space, cs: seq<Region>)
    requires s.pm.Valid() && t.pm.Valid()
  {
    && (forall i :: 0 <= i < |cs| ==> cs[i].frame > 0)
    && forall g: nat :: g in FramesOf(cs) ==> s.pm.IsFree(g) && t.Foreign(g)
  }

  /** The copies are the same regions with the same contents, in frames of their own that were free. */
  ghost predicate Isolated(s: Space, rs: seq<Region>, t: Space, cs: seq<Region>)
    requires s.pm.Valid() && t.pm.Valid()
  {
    Matches(s, rs, t, cs) && Apart(cs) && Fresh(s, t, cs)
  }

  lemma {:induction false} CopiesIsolated(s: Space, rs: seq<Region>, steps: seq<CopyStep>)
    requires s.WF() && s.NoEmptyTable() && |steps| == |rs| && AllCopyable(s, rs) && CopyAll(s, rs, steps).Copies?
    ensures var c := CopyAll(s, rs, steps);
            && Advances(s, c.space) && Retains(s, c.space) && c.space.pm.Valid()
            && (c.ok ==> Isolated(s, rs, c.space, c.regions))
    decreases |rs|
  {
    hide CopyOne, Advances, Retains, Copyable, PageTables.Space.NoEmptyTable, PageTables.Space.WF, Matches, Apart,
      Fresh, SameContents, ForeignRange, NoneFreed;
    WFPm(s);
    if rs == [] {
      AdvancesSelf(s);
      GrownRetains(s, s, None);
      NothingMatches(s);
    } else {
      assert Copyable(s, rs[0]);
      CopyKeeps(s, rs[0], steps[0]);
      var c := CopyOne(s, rs[0], steps[0]);
      var t := c.space;
      AdvancesFacts(s, t);
      GrownRetains(s, t, Growth(s, rs[0], steps[0]));
      WFPm(t);
      if c.ok {
        CopyYields(s, rs[0], steps[0]);
        forall i | 0 <= i < |rs| - 1 ensures Copyable(t, rs[1..][i]) { StillCopyable(s, t, rs[i + 1]); }
        CopiesIsolated(t, rs[1..], steps[1..]);
        var d := CopyAll(t, rs[1..], steps[1..]);
        AdvancesTrans(s, t, d.space);
        RetainsTrans(s, t, d.space);
        if d.ok {
          assert c.regions == [c.regions[0]];
          NothingFreed(s, t);
          AdvancesFacts(t, d.space);
          FirstIsolated(s, t, d.space, rs, c.regions[0], d.regions);
        }
      }
    }
  }

  lemma NothingMatches(s: Space)
    requires s.pm.Valid()
    ensures Isolated(s, [], s, [])
  {
  }

  /** A first copy, and the others after it. */
  lemma FirstIsolated(s: Space, t: Space, u: Space, rs: seq<Region>, c: Region, cs: seq<Region>)
    requires rs != [] && NoneFreed(s, t) && AllCopyable(s, rs) && Undisturbed(s, t) && Undisturbed(t, u)
    requires c == rs[0].(frame := c.frame) && c.num > 0 && s.pm.RunFree(c.frame, c.num)
             && ForeignRange(t, c.frame, c.num)
             && SameContents(s, rs[0].frame, t, c.frame, c.num)
    requires Isolated(t, rs[1..], u, cs)
    ensures Isolated(s, rs, u, [c] + cs)
  {
    hide PageTables.Space.NotTable, Apart, FramesOf, FrameRange;
    MoreRegions(c, cs, {});
    assert s.pm.IsFree(c.frame);
    forall g: nat | g in Holds(c) ensures s.pm.IsFree(g) && t.Foreign(g) && u.Foreign(g) { InRange(c, g); }
    assert Holds(c) !! FramesOf(cs) by {
      forall g | g in FramesOf(cs) ensures g !in Holds(c) { assert t.pm.IsFree(g); }
    }
    FirstMatches(s, t, u, rs, c, cs);
  }

  lemma InRange(c: Region, g: Frame)
    requires g in Holds(c)
    ensures c.frame <= g < c.frame + c.num
  {
  }

  lemma FirstMatches(s: Space, t: Space, u: Space, rs: seq<Region>, c: Region, cs: seq<Region>)
    requires rs != [] && s.pm.Valid() && AllCopyable(s, rs) && Undisturbed(s, t) && Undisturbed(t, u)
    requires c == rs[0].(frame := c.frame) && ForeignRange(t, c.frame, c.num)
             && SameContents(s, rs[0].frame, t, c.frame, c.num)
    requires Matches(t, rs[1..], u, cs)
    ensures Matches(s, rs, u, [c] + cs)
  {
    hide PageTables.Space.NotTable, RegionMapped, SameContents, ForeignRange;
    var all := [c] + cs;
    forall i | 0 <= i < |rs|
      ensures all[i] == rs[i].(frame := all[i].frame) && SameContents(s, rs[i].frame, u, all[i].frame, all[i].num)
    {
      if i == 0 {
        LaterContents(s, rs[0].frame, t, u, c.frame, c.num);
      } else {
        assert rs[i] == rs[1..][i - 1] && all[i] == cs[i - 1] && Copyable(s, rs[i]);
        EarlierContents(s, t, rs[i].frame, u, all[i].frame, rs[i].num);
      }
    }
  }

  lemma LaterContents(s: Space, f: Frame, t: Space, u: Space, c: Frame, num: nat)
    requires SameContents(s, f, t, c, num) && Undisturbed(t, u) && ForeignRange(t, c, num)
    ensures SameContents(s, f, u, c, num)
  {
    hide PageTables.Space.NotTable;
    forall g: nat | c <= g < c + num ensures CopiedAt(s, u, c, f, g) {
      assert t.Foreign(g) && CopiedAt(s, t, c, f, g);
    }
  }

  lemma EarlierContents(s: Space, t: Space, f: Frame, u: Space, c: Frame, num: nat)
    requires SameContents(t, f, u, c, num) && Undisturbed(s, t) && ForeignRange(s, f, num)
    ensures SameContents(s, f, u, c, num)
  {
    hide PageTables.Space.NotTable;
    forall g: nat | c <= g < c + num ensures CopiedAt(s, u, c, f, g) {
      assert s.Foreign(f + (g - c)) && CopiedAt(t, u, c, f, g);
    }
  }
}
