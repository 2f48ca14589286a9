/** How much memory is enough: mapping pages, switching to a task and forking one do not run out of frames,
    or of kernel pages, if as many are free as they take at most. */
module Supply {
  import opened Lists
  import opened PageBitmap
  import opened PageTables
  import opened PageSteps
  import opened PageMap
  import opened PageRefinement
  import opened PageRanges
  import opened PageRoundTrip
  import opened KernelPages
  import opened ExactMaps
  import opened Regions
  import opened RegionCopies
  import opened TaskRegions
  import opened PageSync
  import opened KernelTop
  import opened Coherence
  import opened Forks

  // ---- tables

  ghost predicate AllFree(b: Bitmap, free: set<Frame>)
    requires b.Valid()
  {
    forall g: nat :: g in free ==> b.IsFree(g)
  }

  /** `left` is `free` without at most `k` frames, which are its lowest. */
  ghost predicate AllBut(free: set<Frame>, left: set<Frame>, k: nat) {
    left <= free && |left| >= |free| - k && forall x, y :: x in free && x !in left && y in left ==> x < y
  }

  lemma FreeFits(b: Bitmap, free: set<Frame>)
    requires b.Valid() && AllFree(b, free) && free != {}
    ensures FirstFit(b, 1, 0).Some? && forall g :: g in free ==> FirstFit(b, 1, 0).value <= g
  {
    forall g: nat | g in free ensures b.Fits(g, 1, 0) {}
    var g :| g in free;
    assert b.Fits(g, 1, 0);
  }

  lemma StillFree(b: Bitmap, f: Frame, free: set<Frame>)
    requires b.Valid() && AllFree(b, free) && forall g :: g in free ==> f <= g
    ensures b.Mark(f, 1, true).Valid() && AllFree(b.Mark(f, 1, true), free - {f}) && AllBut(free, free - {f}, 1)
  {
    var c := b.Mark(f, 1, true);
    forall g: nat | g in free - {f} ensures c.IsFree(g) { assert !b.IsUsed(g) && !c.IsUsed(g); }
  }

  /** A table takes at most one frame. */
  lemma EnsureTakes(s: Space, n: Node, i: nat, flags: set<Flag>, free: set<Frame>) returns (left: set<Frame>)
    requires s.pm.Valid() && AllFree(s.pm, free) && free != {}
    ensures EnsureTable(s, n, i, flags).Some?
    ensures AllBut(free, left, 1) && AllFree(EnsureTable(s, n, i, flags).value.pm, left)
  {
    hide FirstFit, IsFirstFit;
    FreeFits(s.pm, free);
    var t := EnsureTable(s, n, i, flags).value;
    left := free;
    if Slot(s.mem, n, i) == ZERO {
      var f := FirstFit(s.pm, 1, 0).value;
      assert t == Grow(s, n, i, f, flags);
      StillFree(s.pm, f, free);
      left := free - {f};
    }
  }

  lemma TopTakes(s: Space, i: nat, flags: set<Flag>, free: set<Frame>) returns (left: set<Frame>)
    requires s.pm.Valid() && AllFree(s.pm, free) && free != {}
    ensures EnsureTop(s, i, flags).Some?
    ensures AllBut(free, left, 1) && AllFree(EnsureTop(s, i, flags).value.pm, left)
  {
    left := EnsureTakes(s, Top(s.cr3), i, flags, free);
  }

  lemma AllButTrans(a: set<Frame>, b: set<Frame>, c: set<Frame>, j: nat, k: nat)
    requires AllBut(a, b, j) && AllBut(b, c, k)
    ensures AllBut(a, c, j + k)
  {
  }

  /** One page can be mapped while three frames are free, whatever tables exist already. */
  lemma MapSucceeds(s: Space, v: nat, f: Frame, attr: Attr, free: set<Frame>) returns (left: set<Frame>)
    requires s.pm.Valid() && AllFree(s.pm, free) && |free| >= 3
    ensures MapOne(s, v, f, attr).Some?
    ensures AllBut(free, left, 3) && AllFree(MapOne(s, v, f, attr).value.pm, left)
  {
    hide EnsureTable, EnsureTop, AllFree, I4, I3, I2, I1;
    var flags := TableFlags(attr);
    var left1 := TopTakes(s, I4(v), flags, free);
    var s1 := EnsureTop(s, I4(v), flags).value;
    var left2 := EnsureTakes(s1, N1(s.cr3, v), I3(v), flags, left1);
    var s2 := EnsureTable(s1, N1(s.cr3, v), I3(v), flags).value;
    left := EnsureTakes(s2, N2(s.cr3, v), I2(v), flags, left2);
    AllButTrans(left1, left2, left, 1, 1);
    AllButTrans(free, left1, left, 1, 2);
  }

  /** A range takes at most three frames for each page. */
  lemma {:induction false} PagesSucceed(s: Space, v: nat, f: Frame, num: nat, attr: Attr, free: set<Frame>)
      returns (left: set<Frame>)
    requires s.pm.Valid() && AllFree(s.pm, free) && |free| >= 3 * num
    ensures MapPages(s, v, f, num, attr).Some?
    ensures AllBut(free, left, 3 * num) && AllFree(MapPages(s, v, f, num, attr).value.pm, left)
    decreases num
  {
    hide MapOne, AllFree;
    left := free;
    if num > 0 {
      var rest := MapSucceeds(s, v, f, attr, free);
      left := PagesSucceed(MapOne(s, v, f, attr).value, v + 1, f + 1, num - 1, attr, rest);
      AllButTrans(free, rest, left, 3, 3 * (num - 1));
    }
  }

  lemma FreeingKeeps(b: Bitmap, f: Frame, free: set<Frame>)
    requires b.Valid() && AllFree(b, free)
    ensures AllFree(FreeOne(b, f), free)
  {
    var c := FreeOne(b, f);
    forall g: nat | g in free ensures c.IsFree(g) { assert !b.IsUsed(g) && !c.IsUsed(g); }
  }

  lemma CollapseKeeps(s: Space, n: Node, i: nat, free: set<Frame>)
    requires s.pm.Valid() && AllFree(s.pm, free)
    ensures Collapse(s, n, i).pm.Valid() && AllFree(Collapse(s, n, i).pm, free)
  {
    hide AllFree;
    FreeingKeeps(s.pm, Slot(s.mem, n, i).frame, free);
  }

  /** Unmapping takes no frame. */
  lemma UnmapKeeps(s: Space, v: nat, free: set<Frame>)
    requires s.pm.Valid() && AllFree(s.pm, free)
    ensures UnmapOne(s, v, true).0.pm.Valid() && AllFree(UnmapOne(s, v, true).0.pm, free)
  {
    hide AllFree, Collapse, I4, I3, I2, I1;
    var r := s.cr3;
    var w := Write(s, N3(r, v), I1(v), ZERO);
    CollapseKeeps(w, N2(r, v), I2(v), free);
    var s3 := Collapse(w, N2(r, v), I2(v));
    CollapseKeeps(s3, N1(r, v), I3(v), free);
    var s2 := Collapse(s3, N1(r, v), I3(v));
    FreeingKeeps(s2.pm, Slot(s2.mem, Top(s2.cr3), I4(v)).frame, free);
  }

  lemma {:induction false} UnmapAllKeeps(s: Space, v: nat, num: nat, free: set<Frame>)
    requires s.pm.Valid() && AllFree(s.pm, free)
    ensures UnmapPages(s, v, num, true).0.pm.Valid() && AllFree(UnmapPages(s, v, num, true).0.pm, free)
    decreases num
  {
    hide UnmapOne, AllFree;
    if num > 0 {
      UnmapKeeps(s, v, free);
      UnmapAllKeeps(UnmapOne(s, v, true).0, v + 1, num - 1, free);
    }
  }

  /** A sync goes through one page. */
  lemma SyncSucceeds(s: Space, r: Frame, v: nat, free: set<Frame>) returns (left: set<Frame>)
    requires s.pm.Valid() && AllFree(s.pm, free) && |free| >= 3
    ensures Sync(s, r, v).Some? && Sync(s, r, v).value.pm.Valid()
    ensures AllBut(free, left, 3) && AllFree(Sync(s, r, v).value.pm, left)
  {
    hide MapOne, UnmapOne, AllFree, Lookup, AllBut;
    left := MapSucceeds(s, v, r, TEMPORARY, free);
    var s1 := MapOne(s, v, r, TEMPORARY).value;
    var f := Lookup(s1.mem, s1.cr3, v).frame;
    UnmapKeeps(s1.(mem := s1.mem[f := SyncedTable(s1.mem, f, s1.cr3)]), v, left);
  }

  // ---- switches

  function PagesOf(rs: seq<Region>): nat { if rs == [] then 0 else rs[0].num + PagesOf(rs[1..]) }

  lemma {:induction false} LoopServed(s: Space, rs: seq<Region>, kernelEnd: nat, free: set<Frame>)
    requires s.pm.Valid() && AllFree(s.pm, free) && |free| >= 3 * PagesOf(rs)
    ensures MapRegions(s, rs, kernelEnd).Looped?
    decreases |rs|
  {
    hide MapPages, ExactPasses, AllFree, Skip;
    if rs != [] {
      var r := rs[0];
      var k := Skip(s, r.frame, r.page, r.num);
      var left := PagesSucceed(s, r.page + k, r.frame + k, r.num - k, RegionAttr(r), free);
      var e := ExactMap(s, r.frame, r.page, r.num, RegionAttr(r), kernelEnd);
      if e.Done? { LoopServed(e.space, rs[1..], kernelEnd, left); }
    }
  }

  /** A stale task is synced through an unmapped kernel page whose slot is taken. */
  ghost predicate CanSync(s: Space, k: nat, v: nat) {
    k < |s.tasks| && s.tasks[k].queued
    && (s.tasks[k].stale && s.tasks[k].vmm != s.cr3 ==>
          KernelPage(v) && Lookup(s.mem, s.cr3, v) == ZERO && SlotTaken(s, v))
  }

  lemma CanActivate(s: Space, k: nat, v: nat, free: set<Frame>) returns (left: set<Frame>)
    requires Good(s) && s.pm.Valid() && CanSync(s, k, v) && AllFree(s.pm, free) && |free| >= 3
    ensures Activable(s, k, v) && Activate(s, k, v).Some?
    ensures AllBut(free, left, 3) && AllFree(Activate(s, k, v).value.pm, left)
  {
    hide Sync, AllFree, Lookup, I4, Coherent, Writables, PageTables.Space.NoEmptyTable, SlotTaken;
    left := free;
    if s.tasks[k].stale && s.tasks[k].vmm != s.cr3 {
      assert s.tasks[k] in s.tasks && s.IsRoot(s.tasks[k].vmm);
      left := SyncSucceeds(s, s.tasks[k].vmm, v, free);
    }
    Activating(s, k, v);
  }

  /** A switch gets all the tables that it needs while three frames are free for each page of the task's
      regions and three for the sync: then it returns 0 exactly if every region passes the checks. */
  lemma SwitchServed(s: Space, k: nat, v: nat, rs: seq<Region>, kernelEnd: nat, free: set<Frame>)
    requires Good(s) && s.pm.Valid() && CanSync(s, k, v) && s.tasks[k].vmm != s.cr3
    requires AllFree(s.pm, free) && |free| >= 3 + 3 * PagesOf(rs)
    requires RegionsFit(s, k, v, rs) && PagesApart(rs)
    ensures Switch(s, k, v, rs, kernelEnd).Looped? && Activate(s, k, v).Some?
    ensures Switch(s, k, v, rs, kernelEnd).ok <==>
            forall i :: 0 <= i < |rs| ==> Passes(Activate(s, k, v).value, rs[i], kernelEnd)
  {
    hide Good, CanSync, Activate, MapRegions, AllFree, RegionsFit, PagesApart, Passes;
    var left := CanActivate(s, k, v, free);
    LoopServed(Activate(s, k, v).value, rs, kernelEnd, left);
    SwitchSucceeds(s, k, v, rs, kernelEnd);
  }

  // ---- forks

  /** Frames taken at the front of a run leave the rest of it free. */
  lemma RunTaken(b: Bitmap, g: Frame, n: nat, k: nat)
    requires b.Valid() && b.RunFree(g, n) && 0 < k <= n
    ensures var (c, r) := Alloc(b, k, 0); r.Some? && c.RunFree(g + k, n - k)
  {
    assert b.Fits(g, k, 0) by { assert b.IsFree(g); }
    var (c, r) := Alloc(b, k, 0);
    AllocExact(b, k, 0);
    forall x: nat | g + k <= x < g + n ensures c.IsFree(x) { assert b.IsFree(x) && !b.IsUsed(x) && !c.IsUsed(x); }
  }

  /** So do frames of a run that are its lowest. */
  lemma RunLeft(b: Bitmap, g: Frame, n: nat, k: nat, left: set<Frame>)
    requires b.Valid() && AllBut(FrameRange(g, n), left, k) && k <= n && AllFree(b, left)
    ensures b.RunFree(g + k, n - k)
  {
    hide Bitmap.IsFree, FrameRange;
    CountFrames(g, n);
    forall y: nat | g + k <= y < g + n ensures b.IsFree(y) {
      if y !in left {
        var above := FrameRange(y + 1, g + n - (y + 1));
        assert y in FrameRange(g, n) && left <= above;
        CountFrames(y + 1, g + n - (y + 1));
        Smaller(left, above);
      }
    }
  }

  lemma RunIsFree(b: Bitmap, g: Frame, n: nat)
    requires b.Valid()
    ensures b.RunFree(g, n) <==> AllFree(b, FrameRange(g, n))
  {
  }

  /** Kernel pages `[w, w + m)` are unmapped, and frames `[g, g + n)` are free. */
  ghost predicate Stocked(s: Space, w: nat, m: nat, g: Frame, n: nat) {
    FIRST <= w && w + m <= WINDOW_PAGE && RunUnmapped(s, w, m) && s.pm.Valid() && s.pm.RunFree(g, n)
  }

  /** Mapping for the kernel takes at most as many pages, and four frames for each. */
  lemma KernelServed(s: Space, num: nat, w: nat, m: nat, g: Frame, n: nat)
    requires s.WF() && s.NoEmptyTable() && num > 0 && Stocked(s, w, m, g, n) && m >= num && n >= 4 * num
    ensures MapKernel(s, num).MappedAt? && MapKernel(s, num).page <= w
    ensures Stocked(MapKernel(s, num).space, w + num, m - num, g + 4 * num, n - 4 * num)
  {
    hide MapPages, Lookup, InHuge, IsPage, Advances, Alloc, AllFree, AllBut, Bitmap.RunFree, Find, PagesAt,
      ForeignRange, Unmapped, FrameRange, PageTables.Space.WF, PageTables.Space.NoEmptyTable;
    assert RunUnmapped(s, w, num);
    var at := Find(s, num).value;
    assert at <= w;
    RunTaken(s.pm, g, n, num);
    var (pm, got) := Alloc(s.pm, num, 0);
    var f, s0 := got.value, s.(pm := pm);
    var g1, n1 := g + num, n - num;
    RunIsFree(pm, g1, n1);
    CountFrames(g1, n1);
    var left := PagesSucceed(s0, at, f, num, KERNEL_PAGES, FrameRange(g1, n1));
    var t := MapPages(s0, at, f, num, KERNEL_PAGES).value;
    RunLeft(t.pm, g1, n1, 3 * num, left);
    MappingKernel(s, num);
    StillUnmapped(s, t, at, f, num, w, m);
  }

  lemma StillUnmapped(s: Space, t: Space, at: nat, f: Frame, num: nat, w: nat, m: nat)
    requires FIRST <= w && w + m <= WINDOW_PAGE && RunUnmapped(s, w, m) && at <= w && num <= m
    requires t.cr3 == s.cr3 && RangeMapped(s, t, at, f, num, LeafFlags(KERNEL_PAGES))
    ensures RunUnmapped(t, w + num, m - num)
  {
    hide Lookup, InHuge, IsPage;
    forall u: nat | w + num <= u < w + m ensures Lookup(t.mem, t.cr3, u) == ZERO { BeforeWindow(u); }
  }

  lemma StockedLess(s: Space, w: nat, m: nat, g: Frame, n: nat, j: nat, k: nat)
    requires Stocked(s, w, m, g, n) && j <= m && k <= n
    ensures Stocked(s, w + j, m - j, g + k, n - k)
  {
    hide Lookup, Bitmap.IsFree;
  }

  lemma StructureServed(s: Space, step: CopyStep, w: nat, m: nat, g: Frame, n: nat)
    requires s.WF() && s.NoEmptyTable() && Stocked(s, w, m, g, n) && m >= 1 && n >= 4
    ensures Structure(s, step).Copies? && Structure(s, step).ok == step.room
    ensures Stocked(Structure(s, step).space, w + 1, m - 1, g + 4, n - 4)
    ensures Grows(s, step).Some? ==> Grows(s, step).value <= w
  {
    hide MapKernel, Stocked, PageTables.Space.WF, PageTables.Space.NoEmptyTable;
    WFPm(s);
    KernelServed(s, 1, w, m, g, n);
    StockedLess(s, w, m, g, n, 1, 4);
  }

  /** A copy succeeds exactly if the region has a page and the heap has room for the structure. */
  lemma CopyServed(s: Space, r: Region, step: CopyStep, w: nat, m: nat, g: Frame, n: nat)
    requires s.WF() && s.NoEmptyTable() && s.pm.Valid() && Copyable(s, r) && Stocked(s, w, m, g, n)
    requires m >= r.num + 1 && n >= 4 * r.num + 4
    ensures CopyOne(s, r, step).Copies? && (CopyOne(s, r, step).ok <==> r.num > 0 && step.room)
    ensures Stocked(CopyOne(s, r, step).space, w + r.num + 1, m - r.num - 1, g + 4 * r.num + 4, n - 4 * r.num - 4)
  {
    hide MapKernel, Structure, Stocked, PageTables.Space.WF, PageTables.Space.NoEmptyTable, Advances, FreshAt,
      Copyable, UnmapPages, CopyPages, Grows, Lookup;
    if r.num == 0 {
      assert MapKernel(s, 0) == NoFrames by { NoPages(s); }
      StockedLess(s, w, m, g, n, 1, 4);
    } else {
      var num := r.num;
      KernelServed(s, num, w, m, g, n);
      var k := MapKernel(s, num);
      MappingKernel(s, num);
      AdvancesFacts(s, k.space);
      WFPm(k.space);
      StructureServed(k.space, step, w + num, m - num, g + 4 * num, n - 4 * num);
      var s2 := Structure(k.space, step).space;
      var s3 := Fill(s2, r, k.page, step.room);
      assert CopyOne(s, r, step).space == UnmapPages(s3, k.page, num, true).0;
      CopyKeeps(s, r, step);
      AdvancesFacts(s, CopyOne(s, r, step).space);
      AfterCopy(s, s2, s3, k.page, num, Growth(s, r, step), w, m, g, n);
    }
  }

  lemma NoPages(s: Space)
    requires s.pm.Valid()
    ensures MapKernel(s, 0) == NoFrames
  {
  }

  /** Unmapping the copy leaves what was free before it. */
  lemma AfterCopy(s: Space, s2: Space, s3: Space, at: nat, num: nat, grown: Option<nat>, w: nat, m: nat, g: Frame,
                  n: nat)
    requires num + 1 <= m && 4 * num + 4 <= n && (grown.Some? ==> grown.value <= w + num)
    requires Stocked(s, w, m, g, n) && Stocked(s2, w + num + 1, m - num - 1, g + 4 * num + 4, n - 4 * num - 4)
    requires var t := UnmapPages(s3, at, num, true).0; s3.pm == s2.pm && t.cr3 == s.cr3 && MapGrown(s, t, grown)
    ensures Stocked(UnmapPages(s3, at, num, true).0, w + num + 1, m - num - 1, g + 4 * num + 4, n - 4 * num - 4)
  {
    hide UnmapPages, Lookup, InHuge, IsPage, Bitmap.RunFree, AllFree, FrameRange;
    var f, k := g + 4 * num + 4, n - 4 * num - 4;
    RunIsFree(s3.pm, f, k);
    UnmapAllKeeps(s3, at, num, FrameRange(f, k));
    var t := UnmapPages(s3, at, num, true).0;
    RunIsFree(t.pm, f, k);
    forall u: nat | w + num + 1 <= u < w + m ensures Lookup(t.mem, t.cr3, u) == ZERO { BeforeWindow(u); }
  }

  /** Kernel pages and frames that copying the regions takes at most. */
  function CopyRoom(rs: seq<Region>): nat { if rs == [] then 0 else rs[0].num + 1 + CopyRoom(rs[1..]) }

  /** Copying succeeds exactly if every region has a page and the heap has room for every structure. */
  lemma {:induction false} CopiesServed(s: Space, rs: seq<Region>, steps: seq<CopyStep>, w: nat, m: nat, g: Frame,
                                        n: nat)
    requires s.WF() && s.NoEmptyTable() && s.pm.Valid() && |steps| == |rs| && AllCopyable(s, rs)
    requires Stocked(s, w, m, g, n) && m >= CopyRoom(rs) && n >= 4 * CopyRoom(rs)
    ensures CopyAll(s, rs, steps).Copies?
    ensures CopyAll(s, rs, steps).ok <==> forall i :: 0 <= i < |rs| ==> rs[i].num > 0 && steps[i].room
    decreases |rs|
  {
    hide CopyOne, Copyable, Stocked, PageTables.Space.WF, PageTables.Space.NoEmptyTable, Advances, MapGrown;
    if rs != [] {
      var r, k := rs[0], rs[0].num;
      assert Copyable(s, r);
      CopyServed(s, r, steps[0], w, m, g, n);
      CopyKeeps(s, r, steps[0]);
      var c := CopyOne(s, r, steps[0]);
      AdvancesFacts(s, c.space);
      AllStillCopyable(s, rs, steps[0]);
      CopiesServed(c.space, rs[1..], steps[1..], w + k + 1, m - k - 1, g + 4 * k + 4, n - 4 * k - 4);
      assert forall i :: 0 < i < |rs| ==> rs[i] == rs[1..][i - 1] && steps[i] == steps[1..][i - 1];
    }
  }

  /** The frame of the new PML4 has nothing in the slot that a sync neither clears nor copies. */
  ghost predicate CleanFrame(s: Space)
    requires s.pm.Valid()
  {
    FirstFit(s.pm, 1, 0).Some? ==> Word(s.mem, FirstFit(s.pm, 1, 0).value, KERNEL_SLOT - 1) == ZERO
  }

  /** A PML4 can be made while four frames are free. */
  lemma NewSucceeds(s: Space, v: nat, free: set<Frame>) returns (left: set<Frame>)
    requires Good(s) && s.pm.Valid() && CleanFrame(s) && AllFree(s.pm, free) && |free| >= 4
    requires KernelPage(v) && Lookup(s.mem, s.cr3, v) == ZERO
    ensures NewReady(s, v) && NewTask(s, v).Some? && AllFree(NewTask(s, v).value.pm, left) && AllBut(free, left, 4)
  {
    hide Sync, AllFree, Lookup, IsPage, I4, Coherent, Writables, PageTables.Space.WF, PageTables.Space.NoEmptyTable,
      FirstFit;
    FreeFits(s.pm, free);
    var g := FirstFit(s.pm, 1, 0).value;
    assert s.pm.RunFree(g, 1) && s.pm.IsFree(g);
    TakingFrame(s, g);
    StillFree(s.pm, g, free);
    var s0 := s.(pm := s.pm.Mark(g, 1, true));
    left := SyncSucceeds(s0, g, v, free - {g});
    AllButTrans(free, free - {g}, left, 1, 3);
  }

  /** With one kernel page and four frames for the PML4, and for each region one page more and four times as
      many frames as it has pages, each in one run, a fork succeeds exactly if every region has a page and
      the heap has room for every structure. */
  lemma ForkServed(s: Space, rs: seq<Region>, steps: seq<CopyStep>, w: nat, m: nat, g: Frame, n: nat)
    requires Good(s) && s.pm.Valid() && |steps| == |rs| && AllCopyable(s, rs) && CleanFrame(s)
    requires Stocked(s, w, m, g, n) && m >= 1 + CopyRoom(rs) && n >= 4 + 4 * CopyRoom(rs)
    ensures ForkReady(s, rs) && Fork(s, rs, steps).Copies?
    ensures Fork(s, rs, steps).ok <==> forall i :: 0 <= i < |rs| ==> rs[i].num > 0 && steps[i].room
  {
    hide Good, NewTask, CopyAll, Copyable, Lookup, InHuge, IsPage, I4, Bitmap.RunFree, AllFree, AllBut, FrameRange,
      CleanFrame, NewReady, Find, SameMap, Untouched;
    assert RunUnmapped(s, w, 1);
    var v := Find(s, 1).value;
    BeforeWindow(v);
    assert RunUnmapped(s, v, 1) && v <= w;
    RunIsFree(s.pm, g, n);
    CountFrames(g, n);
    var left := NewSucceeds(s, v, FrameRange(g, n));
    NewTaskGood(s, v);
    NewTaskKeeps(s, v);
    var t := NewTask(s, v).value;
    GoodTables(t);
    RunLeft(t.pm, g, n, 4, left);
    UntouchedCopyable(s, t, rs);
    SameRun(s, t, w, m);
    CopiesServed(t, rs, steps, w, m, g + 4, n - 4);
  }

  lemma SameRun(s: Space, t: Space, w: nat, m: nat)
    requires t.cr3 == s.cr3 && SameMap(s, t) && FIRST <= w && w + m <= WINDOW_PAGE && RunUnmapped(s, w, m)
    ensures RunUnmapped(t, w, m)
  {
    hide Lookup, InHuge, IsPage;
    forall u: nat | w <= u < w + m ensures Lookup(t.mem, t.cr3, u) == ZERO { BeforeWindow(u); }
  }
}
