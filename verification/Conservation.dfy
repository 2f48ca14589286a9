/** Who owns which frame, over every run of the operations that map, unmap, copy and free
    (kernel/mm/vmm.c, kernel/mm/region.c): nothing is owned twice, and exactly which steps leak. */
module Conservation {
  import opened Lists
  import opened PageBitmap
  import opened PageTables
  import opened PageSteps
  import opened PageMap
  import opened PageRefinement
  import opened PageRanges
  import opened ExactMaps
  import opened PageOwnership
  import opened PageRoundTrip
  import opened KernelPages
  import opened Regions
  import opened RegionCopies

  /** Memory, the regions that exist, and the allocated frames that nobody knows of any more. */
  datatype State = State(space: Space, regions: seq<Region>, lost: set<Frame>)

  /** The allocated frames are, without overlap, those that were in use from the start (`base`), those of
      the regions, the tables, those that pages own, and the lost ones. Page 0 is not mapped. */
  ghost predicate Inv(s: State, base: set<Frame>) {
    && s.space.WF() && s.space.NoEmptyTable() && Lookup(s.space.mem, s.space.cr3, 0) == ZERO
    && Parted(s.regions, s.lost, base)
    && Owned(s.space, base + FramesOf(s.regions) + s.lost)
  }

  ghost predicate Parted(rs: seq<Region>, lost: set<Frame>, base: set<Frame>) {
    Apart(rs) && FramesOf(rs) !! base && lost !! base + FramesOf(rs)
  }

  datatype Op =
    /** `vmm_map`, `vmm_map_vaddr`: allocate frames and map them. */
    | MapFresh(page: nat, num: nat, align: nat, attr: Attr)
    /** `vmm_map_paddr`, `vmm_map_exact`: map frames that are not to be given back. */
    | MapGiven(page: nat, frame: Frame, num: nat, attr: Attr)
    /** `vmm_unmap` */
    | Unmap(page: nat, num: nat, save: bool)
    /** `region_new` */
    | NewRegion(kind: nat, area: nat, page: nat, num: nat)
    /** `region_map`, with the pages that are found for a region without an address */
    | MapRegion(region: nat, at: nat, kernelEnd: nat)
    /** `region_unmap` */
    | UnmapRegion(region: nat)
    /** `region_copy`, and how the heap fares meanwhile */
    | CopyRegion(region: nat, step: CopyStep)
    /** `region_free` */
    | FreeRegion(region: nat)

  /** What the kernel relies on: pages are small ones other than page 0, frames that are not allocated
      are mapped with the save attribute, and only mapped regions are copied. */
  ghost predicate Allowed(s: State, op: Op) {
    match op
    case MapFresh(v, num, _, _) => v > 0 && SmallPages(s.space, v, num)
    case MapGiven(v, _, num, attr) => v > 0 && SmallPages(s.space, v, num) && attr.save
    case Unmap(v, num, _) => SmallPages(s.space, v, num)
    case NewRegion(_, _, _, _) => true
    case MapRegion(i, at, _) =>
      && i < |s.regions| && at > 0
      && (var r := s.regions[i];
          if r.page == 0 then Unmapped(s.space, at, r.num) else SmallPages(s.space, r.page, r.num))
    case UnmapRegion(i) => i < |s.regions| && SmallPages(s.space, s.regions[i].page, s.regions[i].num)
    case CopyRegion(i, _) => i < |s.regions| && s.regions[i].frame > 0 && RegionMapped(s.space, s.regions[i])
    case FreeRegion(i) => i < |s.regions|
  }

  /** What a mapping of fresh frames from `f` on leaves to nobody: frames that the pages owned before, and
      the new ones if no page owns them. */
  function LostByFresh(s: Space, v: nat, f: Frame, num: nat, attr: Attr): set<Frame> {
    OwnedBy(s, v, num) + if attr.save then FrameRange(f, num) else {}
  }

  /** What `region_map` leaves to nobody. A region without an address forgets the frames it had; pages
      that are mapped over forget theirs. */
  function LostByRegion(s: Space, r: Region, kernelEnd: nat): set<Frame>
    requires s.pm.Valid()
  {
    if r.page == 0 then Holds(r)
    else if r.frame == 0 then
      if AllInArea(r.page, r.num, kernelEnd) && Alloc(s.pm, r.num, 0).1.Some? then OwnedBy(s, r.page, r.num) else {}
    else if ExactPasses(s, r.frame, r.page, r.num, RegionAttr(r), kernelEnd) then
      var k := Skip(s, r.frame, r.page, r.num);
      OwnedBy(s, r.page + k, r.num - k)
    else {}
  }

  /** The frames that a step loses. */
  function Loss(s: State, op: Op): set<Frame>
    requires s.space.pm.Valid()
  {
    match op
    case MapFresh(v, num, align, attr) => (
      match Alloc(s.space.pm, num, align).1
      case None => {}
      case Some(f) => LostByFresh(s.space, v, f, num, attr))
    case MapGiven(v, _, num, _) => OwnedBy(s.space, v, num)
    case Unmap(v, num, save) => if save then OwnedBy(s.space, v, Leading(s.space, v, num)) else {}
    case NewRegion(_, _, _, _) => {}
    case MapRegion(i, _, kernelEnd) => if i < |s.regions| then LostByRegion(s.space, s.regions[i], kernelEnd) else {}
    case UnmapRegion(i) => (
      if i < |s.regions| then
        var r := s.regions[i];
        OwnedBy(s.space, r.page, Leading(s.space, r.page, r.num))
      else {})
    case CopyRegion(i, step) => (
      if i >= |s.regions| then {}
      else
        match CopyOne(s.space, s.regions[i], step)
        case Copies(_, _, false) => Obtained(s.space, s.regions[i].num)
        case _ => {})
    case FreeRegion(_) => {}
  }

  /** The regions without region `i`. */
  function Without(rs: seq<Region>, i: nat): seq<Region>
    requires i < |rs|
  {
    rs[..i] + rs[i + 1..]
  }

  /** Memory and regions after a step; None if a table could not be allocated, which the kernel does
      not check. */
  function Change(s: State, op: Op): Option<(Space, seq<Region>)>
    requires s.space.pm.Valid()
  {
    var (m, rs) := (s.space, s.regions);
    match op
    case MapFresh(v, num, align, attr) => (
      var (pm, got) := Alloc(m.pm, num, align);
      match got
      case None => Some((m, rs))
      case Some(f) =>
        match MapPages(m.(pm := pm), v, f, num, attr)
        case None => None
        case Some(t) => Some((t, rs)))
    case MapGiven(v, f, num, attr) => (
      match MapPages(m, v, f, num, attr)
      case None => None
      case Some(t) => Some((t, rs)))
    case Unmap(v, num, save) => Some((UnmapPages(m, v, num, save).0, rs))
    case NewRegion(kind, area, page, num) => Some((m, rs + [Region(kind, area, page, 0, num)]))
    case MapRegion(i, at, kernelEnd) => (
      if i >= |rs| then None
      else
        match RegionMap(m, rs[i], at, kernelEnd)
        case None => None
        case Some((t, r, _)) => Some((t, rs[i := r])))
    case UnmapRegion(i) => (
      if i >= |rs| then None else Some((UnmapPages(m, rs[i].page, rs[i].num, true).0, rs)))
    case CopyRegion(i, step) => (
      if i >= |rs| then None
      else
        match CopyOne(m, rs[i], step)
        case NoMemory => None
        case Copies(t, c, ok) => Some((t, if ok then rs + c else rs)))
    case FreeRegion(i) => (
      if i >= |rs| then None
      else Some((if rs[i].frame == 0 then m else m.(pm := m.pm.Mark(rs[i].frame, rs[i].num, false)), Without(rs, i))))
  }

  function Apply(s: State, op: Op): Option<State>
    requires s.space.pm.Valid()
  {
    match Change(s, op)
    case None => None
    case Some((t, rs)) => Some(State(t, rs, s.lost + Loss(s, op)))
  }

  // ---- regions in a list

  lemma {:induction false} SplitAt(rs: seq<Region>, i: nat)
    requires i < |rs|
    ensures FramesOf(rs) == Holds(rs[i]) + FramesOf(Without(rs, i))
    ensures Apart(rs) <==> Holds(rs[i]) !! FramesOf(Without(rs, i)) && Apart(Without(rs, i))
    decreases i
  {
    hide Holds;
    if i == 0 {
      assert Without(rs, 0) == rs[1..];
    } else {
      SplitAt(rs[1..], i - 1);
      var w := Without(rs, i);
      assert w[0] == rs[0] && w[1..] == Without(rs[1..], i - 1);
    }
  }

  lemma Replaced(rs: seq<Region>, i: nat, r: Region)
    requires i < |rs|
    ensures FramesOf(rs[i := r]) == Holds(r) + FramesOf(Without(rs, i))
    ensures Apart(rs[i := r]) <==> Holds(r) !! FramesOf(Without(rs, i)) && Apart(Without(rs, i))
  {
    hide Holds, FramesOf, Apart;
    SplitAt(rs[i := r], i);
    assert Without(rs[i := r], i) == Without(rs, i);
  }

  lemma Appended(rs: seq<Region>, r: Region)
    ensures FramesOf(rs + [r]) == Holds(r) + FramesOf(rs)
    ensures Apart(rs + [r]) <==> Holds(r) !! FramesOf(rs) && Apart(rs)
  {
    hide Holds, FramesOf, Apart;
    SplitAt(rs + [r], |rs|);
    assert Without(rs + [r], |rs|) == rs;
  }

  // ---- what each kind of step does to the owners

  lemma FreeingHeld(s: Space, f: Frame, num: nat, held: set<Frame>)
    requires s.WF() && s.NoEmptyTable() && Owned(s, held) && FrameRange(f, num) <= held
    ensures var t := s.(pm := s.pm.Mark(f, num, false));
            t.WF() && t.NoEmptyTable() && Owned(t, held - FrameRange(f, num))
  {
    var t := s.(pm := s.pm.Mark(f, num, false));
    SameTree(s, t);
    HeldForeign(s, held);
    forall g: nat ensures IsTab(t, g) == IsTab(s, g) && IsLeafFrame(t, g) == IsLeafFrame(s, g) {
      SameRoles(s, t, g);
    }
    assert forall m, j: nat :: IsLeaf(s, m, j) == IsLeaf(t, m, j);
    forall n | t.InTree(n) && Table(t.mem, n).Some? ensures !t.pm.IsFree(Table(t.mem, n).value) {
      var g := Table(t.mem, n).value;
      assert s.InTree(n) && IsTab(s, g);
      assert g !in FrameRange(f, num);
    }
  }

  /** The parts of the invariant that speak of memory alone. */
  ghost predicate Sound(s: Space) { s.WF() && s.NoEmptyTable() && Lookup(s.mem, s.cr3, 0) == ZERO }

  /** Page 0 is a page. */
  lemma NullPage()
    ensures IsPage(0)
  {
  }

  lemma GivenOwned(s: Space, v: nat, f: Frame, num: nat, attr: Attr, held: set<Frame>)
    requires Sound(s) && Owned(s, held) && v > 0 && SmallPages(s, v, num) && attr.save
             && MapPages(s, v, f, num, attr).Some?
    ensures var t := MapPages(s, v, f, num, attr).value; Sound(t) && Owned(t, held + OwnedBy(s, v, num))
    ensures OwnedBy(s, v, num) !! held
  {
    hide MapPages, Owned, Lookup, InHuge, IsPage, OthersStay, TopGuarded, TablesStay, Undisturbed, OwnedBy;
    NullPage();
    MappingPages(s, v, f, num, attr);
    OwnMapPages(s, v, f, num, attr, held);
    assert held + OwnedBy(s, v, num) - TakenFrames(f, num, attr) == held + OwnedBy(s, v, num);
  }

  lemma FreshOwned(s: Space, v: nat, f: Frame, num: nat, attr: Attr, held: set<Frame>)
    requires Sound(s) && Owned(s, held) && s.pm.RunFree(f, num) && v > 0 && SmallPages(s, v, num)
    requires MapPages(s.(pm := s.pm.Mark(f, num, true)), v, f, num, attr).Some?
    ensures var t := MapPages(s.(pm := s.pm.Mark(f, num, true)), v, f, num, attr).value;
            Sound(t) && Owned(t, held + LostByFresh(s, v, f, num, attr))
    ensures FrameRange(f, num) !! held + OwnedBy(s, v, num) && OwnedBy(s, v, num) !! held
    ensures var t := MapPages(s.(pm := s.pm.Mark(f, num, true)), v, f, num, attr).value;
            num > 0 ==> Lookup(t.mem, t.cr3, v).frame == f
  {
    hide MapPages, Owned, Lookup, InHuge, IsPage, OthersStay, TopGuarded, TablesStay, Undisturbed, OwnedBy,
      FrameRange;
    NullPage();
    TakingRun(s, f, num, held);
    var u := s.(pm := s.pm.Mark(f, num, true));
    MarkedOwners(s, u, v, num);
    MappingPages(u, v, f, num, attr);
    OwnMapPages(u, v, f, num, attr, held + FrameRange(f, num));
    assert num > 0 ==> IsPage(v);
    assert held + FrameRange(f, num) + OwnedBy(s, v, num) - TakenFrames(f, num, attr)
        == held + LostByFresh(s, v, f, num, attr);
  }

  lemma MarkedOwners(s: Space, u: Space, v: nat, num: nat)
    requires u == s.(pm := u.pm)
    ensures OwnedBy(u, v, num) == OwnedBy(s, v, num) && SmallPages(u, v, num) == SmallPages(s, v, num)
  {
  }

  lemma UnmapOwned(s: Space, v: nat, num: nat, save: bool, held: set<Frame>)
    requires Sound(s) && Owned(s, held) && SmallPages(s, v, num)
    ensures var t, lost := UnmapPages(s, v, num, save).0, if save then OwnedBy(s, v, Leading(s, v, num)) else {};
            Sound(t) && Owned(t, held + lost) && lost !! held
  {
    hide UnmapPages, Owned, Lookup, InHuge, IsPage, OthersStay, TopGuarded, TablesStay, Undisturbed, OwnedBy;
    NullPage();
    OwnedFreeSafe(s, v, num, save, held);
    OwnUnmapPages(s, v, num, save, held);
    OwnedByApart(s, v, Leading(s, v, num), held);
    assert held + {} == held;
    var k := UnmappingPages(s, v, num, save);
  }

  // ---- every step keeps the owners apart

  /** A step that leaves the regions alone. */
  lemma SameRegions(s: State, t: Space, loss: set<Frame>, base: set<Frame>)
    requires Inv(s, base) && Sound(t) && loss !! base + FramesOf(s.regions) + s.lost
    requires Owned(t, base + FramesOf(s.regions) + s.lost + loss)
    ensures Inv(State(t, s.regions, s.lost + loss), base)
  {
    hide Owned, PageTables.Space.WF, PageTables.Space.NoEmptyTable, FramesOf, Apart, Lookup;
    var f := FramesOf(s.regions);
    assert base + f + s.lost + loss == base + f + (s.lost + loss);
  }

  /** A step that gives region `i` new frames and loses `loss`, which may be those it had. */
  lemma OtherRegion(s: State, t: Space, i: nat, r: Region, gain: set<Frame>, loss: set<Frame>, base: set<Frame>)
    requires Inv(s, base) && Sound(t) && i < |s.regions| && Holds(r) == gain
    requires gain + loss !! base + FramesOf(s.regions) + s.lost && gain !! loss
    requires Owned(t, base + FramesOf(s.regions) + s.lost + gain + loss)
    ensures Inv(State(t, s.regions[i := r], s.lost + Holds(s.regions[i]) + loss), base)
  {
    hide Owned, PageTables.Space.WF, PageTables.Space.NoEmptyTable, FramesOf, Apart, Lookup, Holds;
    SplitAt(s.regions, i);
    Replaced(s.regions, i, r);
    var w, h := FramesOf(Without(s.regions, i)), Holds(s.regions[i]);
    assert base + (h + w) + s.lost + gain + loss == base + (gain + w) + (s.lost + h + loss);
  }

  /** A step that adds a region. */
  lemma OneMoreRegion(s: State, t: Space, r: Region, base: set<Frame>)
    requires Inv(s, base) && Sound(t) && Holds(r) !! base + FramesOf(s.regions) + s.lost
    requires Owned(t, base + FramesOf(s.regions) + s.lost + Holds(r))
    ensures Inv(State(t, s.regions + [r], s.lost), base)
  {
    hide Owned, PageTables.Space.WF, PageTables.Space.NoEmptyTable, FramesOf, Apart, Lookup, Holds;
    Appended(s.regions, r);
    var f := FramesOf(s.regions);
    assert base + f + s.lost + Holds(r) == base + (Holds(r) + f) + s.lost;
  }

  lemma InvParts(s: State, base: set<Frame>)
    requires Inv(s, base)
    ensures Sound(s.space) && s.space.pm.Valid() && Owned(s.space, base + FramesOf(s.regions) + s.lost)
  {
  }

  lemma PagesStep(s: State, op: Op, base: set<Frame>)
    requires Inv(s, base) && s.space.pm.Valid() && Allowed(s, op) && Apply(s, op).Some?
    requires op.MapFresh? || op.MapGiven? || op.Unmap? || op.UnmapRegion?
    ensures Inv(Apply(s, op).value, base)
  {
    hide MapPages, UnmapPages, Owned, Inv, FramesOf, Lookup, OwnedBy, Leading, Sound, FrameRange, LostByFresh,
      SmallPages;
    var m, held := s.space, base + FramesOf(s.regions) + s.lost;
    InvParts(s, base);
    assert s.lost + {} == s.lost;
    match op {
      case MapFresh(v, num, align, attr) =>
        var (pm, got) := Alloc(m.pm, num, align);
        if got.Some? {
          FreshOwned(m, v, got.value, num, attr, held);
          assert LostByFresh(m, v, got.value, num, attr) !! held by { LossApart(m, v, got.value, num, attr, held); }
          SameRegions(s, Change(s, op).value.0, Loss(s, op), base);
        }
      case MapGiven(v, f, num, attr) =>
        GivenOwned(m, v, f, num, attr, held);
        SameRegions(s, Change(s, op).value.0, Loss(s, op), base);
      case Unmap(v, num, save) =>
        UnmapOwned(m, v, num, save, held);
        SameRegions(s, Change(s, op).value.0, Loss(s, op), base);
      case UnmapRegion(i) =>
        UnmapOwned(m, s.regions[i].page, s.regions[i].num, true, held);
        SameRegions(s, Change(s, op).value.0, Loss(s, op), base);
    }
  }

  lemma LossApart(s: Space, v: nat, f: Frame, num: nat, attr: Attr, held: set<Frame>)
    requires FrameRange(f, num) !! held && OwnedBy(s, v, num) !! held
    ensures LostByFresh(s, v, f, num, attr) !! held
  {
  }

  lemma CopyingStep(s: State, i: nat, step: CopyStep, base: set<Frame>)
    requires var op := CopyRegion(i, step);
             && Inv(s, base) && s.space.pm.Valid() && Allowed(s, op)
             && Apply(s, op).Some?
    ensures Inv(Apply(s, CopyRegion(i, step)).value, base)
  {
    hide CopyOne, MapKernel, Owned, Inv, FramesOf, Lookup, FrameRange, RegionMapped, Growth, MapGrown, Advances,
      PageTables.Space.WF, PageTables.Space.NoEmptyTable, SameContents, ForeignRange;
    var m, held, r := s.space, base + FramesOf(s.regions) + s.lost, s.regions[i];
    InvParts(s, base);
    assert FrameRange(r.frame, r.num) <= held by { SplitAt(s.regions, i); }
    HeldCopyable(m, r, held);
    CopyKeeps(m, r, step);
    CopyOwned(m, r, step, held);
    var c := CopyOne(m, r, step);
    assert Sound(c.space) by { CopiedNull(m, c.space, Growth(m, r, step)); }
    if c.ok {
      CopyYields(m, r, step);
      assert m.pm.IsFree(c.regions[0].frame);
      assert c.regions == [c.regions[0]] && Holds(c.regions[0]) == Obtained(m, r.num);
      assert s.lost + {} == s.lost;
      OneMoreRegion(s, c.space, c.regions[0], base);
    } else {
      SameRegions(s, c.space, Obtained(m, r.num), base);
    }
  }

  lemma HeldCopyable(s: Space, r: Region, held: set<Frame>)
    requires s.WF() && Owned(s, held) && FrameRange(r.frame, r.num) <= held && RegionMapped(s, r)
    ensures Copyable(s, r)
  {
    hide Owned, PageTables.Space.NotTable;
    HeldForeign(s, held);
    forall g: nat | r.frame <= g < r.frame + r.num ensures s.Foreign(g) && |s.mem[g]| == PTE_COUNT {
      assert g in FrameRange(r.frame, r.num);
    }
  }

  /** The page that the heap grows by is not page 0. */
  lemma CopiedNull(s: Space, t: Space, grown: Option<nat>)
    requires Sound(s) && Advances(s, t) && MapGrown(s, t, grown) && (grown.Some? ==> FIRST <= grown.value)
    ensures Sound(t)
  {
    hide Lookup, InHuge, IsPage, PageTables.Space.WF;
    NullPage();
  }

  lemma FreeStep(s: State, i: nat, base: set<Frame>)
    requires Inv(s, base) && s.space.pm.Valid() && i < |s.regions|
    ensures Inv(Apply(s, FreeRegion(i)).value, base)
  {
    hide Owned, FramesOf, Lookup, FrameRange, Apart, PageTables.Space.WF, PageTables.Space.NoEmptyTable;
    var m, held, r := s.space, base + FramesOf(s.regions) + s.lost, s.regions[i];
    SplitAt(s.regions, i);
    var w := FramesOf(Without(s.regions, i));
    assert s.lost + {} == s.lost;
    assert held - Holds(r) == base + w + s.lost;
    if r.frame == 0 {
      assert held - Holds(r) == held;
    } else {
      FreeingHeld(m, r.frame, r.num, held);
      MarkedNull(m, m.(pm := m.pm.Mark(r.frame, r.num, false)));
    }
  }

  lemma MarkedNull(s: Space, t: Space)
    requires t == s.(pm := t.pm)
    ensures Lookup(t.mem, t.cr3, 0) == Lookup(s.mem, s.cr3, 0)
  {
  }

  /** A region that gets fresh frames at `v`, or none. */
  lemma FreshRegion(s: State, i: nat, v: nat, base: set<Frame>)
    requires Inv(s, base) && s.space.pm.Valid() && i < |s.regions| && v > 0 && SmallPages(s.space, v, s.regions[i].num)
    requires RegionMapFresh(s.space, s.regions[i], v).Some?
    ensures var (t, r, _) := RegionMapFresh(s.space, s.regions[i], v).value;
            var got := Alloc(s.space.pm, s.regions[i].num, 0).1;
            var over := if got.Some? then OwnedBy(s.space, v, s.regions[i].num) else {};
            Inv(State(t, s.regions[i := r], s.lost + Holds(s.regions[i]) + over), base)
  {
    hide MapPages, Owned, Inv, FramesOf, Lookup, OwnedBy, Sound, FrameRange, SmallPages, Holds;
    var m, held, r := s.space, base + FramesOf(s.regions) + s.lost, s.regions[i];
    InvParts(s, base);
    var (t, r', _) := RegionMapFresh(m, r, v).value;
    var (pm, got) := Alloc(m.pm, r.num, 0);
    if got.Some? {
      var f := got.value;
      FreshOwned(m, v, f, r.num, RegionAttr(r), held);
      assert m.pm.IsFree(f);
      HoldsFresh(r', f);
      var over := OwnedBy(m, v, r.num);
      assert held + LostByFresh(m, v, f, r.num, RegionAttr(r)) == held + FrameRange(f, r.num) + over;
      OtherRegion(s, t, i, r', FrameRange(f, r.num), over, base);
    } else {
      NullFrame(m);
      HoldsNothing(r');
      assert held + {} + {} == held;
      OtherRegion(s, t, i, r', {}, {}, base);
    }
  }

  lemma HoldsFresh(r: Region, f: Frame)
    requires r.frame == f > 0
    ensures Holds(r) == FrameRange(f, r.num)
  {
  }

  lemma HoldsNothing(r: Region)
    requires r.frame == 0
    ensures Holds(r) == {}
  {
  }

  lemma NullFrame(s: Space)
    requires Sound(s)
    ensures Lookup(s.mem, s.cr3, 0).frame == 0
  {
  }

  lemma MapRegionStep(s: State, i: nat, at: nat, kernelEnd: nat, base: set<Frame>)
    requires var op := MapRegion(i, at, kernelEnd);
             && Inv(s, base) && s.space.pm.Valid() && Allowed(s, op)
             && Apply(s, op).Some?
    ensures Inv(Apply(s, MapRegion(i, at, kernelEnd)).value, base)
  {
    hide RegionMapFresh, MapPages, Owned, Inv, FramesOf, Lookup, OwnedBy, Sound, SmallPages, Holds, ExactPasses,
      AllInArea;
    var m, held, r := s.space, base + FramesOf(s.regions) + s.lost, s.regions[i];
    InvParts(s, base);
    if r.page == 0 {
      assert SmallPages(m, at, r.num) && OwnedBy(m, at, r.num) == {} by { UnmappedOwners(m, at, r.num); }
      FreshRegion(s, i, at, base);
      assert s.lost + Holds(r) + {} == s.lost + Holds(r);
    } else if r.frame == 0 {
      HoldsNothing(r);
      assert s.lost + {} == s.lost && s.lost + {} + {} == s.lost;
      if AllInArea(r.page, r.num, kernelEnd) {
        FreshRegion(s, i, r.page, base);
        assert forall x: set<Frame> :: s.lost + Holds(r) + x == s.lost + x;
      } else {
        NullFrame(m);
        var r' := r.(frame := Lookup(m.mem, m.cr3, 0).frame);
        assert r' == r && s.regions[i := r'] == s.regions;
        assert Apply(s, MapRegion(i, at, kernelEnd)).value == s;
      }
    } else {
      ExactStep(s, i, at, kernelEnd, base);
    }
  }

  lemma UnmappedOwners(s: Space, at: nat, num: nat)
    requires Unmapped(s, at, num)
    ensures SmallPages(s, at, num) && OwnedBy(s, at, num) == {}
  {
    hide Lookup;
    NoOwnerNone(s, at, num);
  }

  lemma ExactStep(s: State, i: nat, at: nat, kernelEnd: nat, base: set<Frame>)
    requires var op := MapRegion(i, at, kernelEnd);
             && Inv(s, base) && s.space.pm.Valid() && Allowed(s, op)
             && Apply(s, op).Some?
    requires s.regions[i].page > 0 && s.regions[i].frame > 0
    ensures Inv(Apply(s, MapRegion(i, at, kernelEnd)).value, base)
  {
    hide MapPages, Owned, Inv, FramesOf, Lookup, OwnedBy, Sound, ExactPasses, AllInArea, IsPage, InHuge;
    var m, held, r := s.space, base + FramesOf(s.regions) + s.lost, s.regions[i];
    InvParts(s, base);
    assert s.regions[i := r] == s.regions && s.lost + {} == s.lost;
    if ExactPasses(m, r.frame, r.page, r.num, RegionAttr(r), kernelEnd) {
      var k := Skip(m, r.frame, r.page, r.num);
      assert SmallPages(m, r.page + k, r.num - k);
      GivenOwned(m, r.page + k, r.frame + k, r.num - k, RegionAttr(r), held);
      SameRegions(s, Change(s, MapRegion(i, at, kernelEnd)).value.0, Loss(s, MapRegion(i, at, kernelEnd)), base);
    }
  }

  /** Every step keeps the allocated frames partitioned among what was in use from the start, regions,
      tables, pages and what is lost. */
  lemma StepOwned(s: State, op: Op, base: set<Frame>)
    requires Inv(s, base) && s.space.pm.Valid() && Allowed(s, op) && Apply(s, op).Some?
    ensures Inv(Apply(s, op).value, base)
  {
    match op {
      case MapRegion(i, at, kernelEnd) => MapRegionStep(s, i, at, kernelEnd, base);
      case CopyRegion(i, step) => CopyingStep(s, i, step, base);
      case FreeRegion(i) => FreeStep(s, i, base);
      case NewRegion(kind, area, page, num) =>
        var r := Region(kind, area, page, 0, num);
        assert base + FramesOf(s.regions) + s.lost + {} == base + FramesOf(s.regions) + s.lost && s.lost + {} == s.lost;
        OneMoreRegion(s, s.space, r, base);
      case _ => PagesStep(s, op, base);
    }
  }

  /** An allocated frame that is in no region, table or page, and was not in use from the start. */
  ghost predicate Orphan(s: State, base: set<Frame>, f: Frame) {
    && s.space.pm.IsUsed(f) && f !in base && f !in FramesOf(s.regions)
    && !IsTab(s.space, f) && !IsLeafFrame(s.space, f)
  }

  /** The lost frames are exactly the allocated ones that nothing accounts for. */
  lemma LostMeans(s: State, base: set<Frame>, f: Frame)
    requires Inv(s, base)
    ensures f in s.lost <==> Orphan(s, base, f)
  {
    hide PageTables.Space.WF, IsTab, IsLeafFrame, FramesOf, Apart;
    assert UseOwned(s.space, base + FramesOf(s.regions) + s.lost)
           && HeldApart(s.space, base + FramesOf(s.regions) + s.lost);
  }

  // ---- which steps leak

  /** The heap has room for the structure of a copy, after it grew if it must, for which there is a frame. */
  predicate HeapServes(s: Space, step: CopyStep)
    requires s.pm.Valid()
  {
    step.room && (step.grows ==> Alloc(s.pm, 1, 0).1.Some?)
  }

  /** What a caller must see to before a step, lest frames be lost: no page that owns its frame is mapped
      over or unmapped with the save attribute, fresh frames are mapped without it, a region that has
      frames has an address, and there is memory for the structure of a copy. */
  ghost predicate Harmless(s: State, op: Op)
    requires s.space.pm.Valid()
  {
    match op
    case MapFresh(v, num, align, attr) =>
      Alloc(s.space.pm, num, align).1 == None || (!attr.save && NoOwner(s.space, v, num))
    case MapGiven(v, _, num, _) => NoOwner(s.space, v, num)
    case Unmap(v, num, save) => save ==> NoOwner(s.space, v, Leading(s.space, v, num))
    case NewRegion(_, _, _, _) => true
    case MapRegion(i, _, kernelEnd) =>
      i < |s.regions| ==>
        var r := s.regions[i];
        if r.page == 0 then r.frame == 0 || r.num == 0
        else if r.frame == 0 then
          AllInArea(r.page, r.num, kernelEnd) && Alloc(s.space.pm, r.num, 0).1.Some? ==> NoOwner(s.space, r.page, r.num)
        else
          ExactPasses(s.space, r.frame, r.page, r.num, RegionAttr(r), kernelEnd) ==>
            var k := Skip(s.space, r.frame, r.page, r.num);
            NoOwner(s.space, r.page + k, r.num - k)
    case UnmapRegion(i) =>
      i < |s.regions| ==> NoOwner(s.space, s.regions[i].page, Leading(s.space, s.regions[i].page, s.regions[i].num))
    case CopyRegion(i, step) =>
      i < |s.regions| && MapKernel(s.space, s.regions[i].num).MappedAt? ==>
        HeapServes(MapKernel(s.space, s.regions[i].num).space, step)
    case FreeRegion(_) => true
  }

  lemma SomeFrames(f: Frame, num: nat)
    ensures FrameRange(f, num) == {} <==> num == 0
  {
    assert num > 0 ==> f in FrameRange(f, num);
  }

  lemma LossEmpty(s: State, op: Op)
    requires s.space.pm.Valid() && Change(s, op).Some?
    ensures Loss(s, op) == {} <==> Harmless(s, op)
  {
    hide Lookup, OwnedBy, NoOwner, FrameRange, Leading, ExactPasses, AllInArea, Same, MapPages, UnmapPages, FillCopy,
      Find;
    var m := s.space;
    match op {
      case MapFresh(v, num, align, attr) =>
        NoOwnerNone(m, v, num);
        if Alloc(m.pm, num, align).1.Some? { SomeFrames(Alloc(m.pm, num, align).1.value, num); }
      case MapGiven(v, _, num, _) => NoOwnerNone(m, v, num);
      case Unmap(v, num, _) => NoOwnerNone(m, v, Leading(m, v, num));
      case NewRegion(_, _, _, _) =>
      case MapRegion(i, _, _) =>
        if i < |s.regions| {
          var r := s.regions[i];
          var k := Skip(m, r.frame, r.page, r.num);
          SomeFrames(r.frame, r.num);
          NoOwnerNone(m, r.page, r.num);
          NoOwnerNone(m, r.page + k, r.num - k);
        }
      case UnmapRegion(i) =>
        if i < |s.regions| { NoOwnerNone(m, s.regions[i].page, Leading(m, s.regions[i].page, s.regions[i].num)); }
      case CopyRegion(i, step) => CopyLoses(m, s.regions[i], step);
      case FreeRegion(_) =>
    }
  }

  /** A copy fails exactly if it obtains no frames or the heap does not serve it. */
  lemma CopyLoses(s: Space, r: Region, step: CopyStep)
    requires s.pm.Valid() && CopyOne(s, r, step).Copies?
    ensures CopyOne(s, r, step).ok <==>
            MapKernel(s, r.num).MappedAt? && HeapServes(MapKernel(s, r.num).space, step)
    ensures Obtained(s, r.num) != {} <==> MapKernel(s, r.num).MappedAt?
  {
    hide Find, MapPages, UnmapPages, FillCopy, FrameRange;
    if MapKernel(s, r.num).MappedAt? { SomeFrames(MapKernel(s, r.num).frame, r.num); }
  }

  /** Some frame is an orphan that was none before. */
  ghost predicate Leaks(s: State, t: State, base: set<Frame>) {
    exists f: nat :: Orphan(t, base, f) && !Orphan(s, base, f)
  }

  lemma LeaksMeans(s: State, t: State, base: set<Frame>)
    requires Inv(s, base) && Inv(t, base) && s.lost <= t.lost
    ensures Leaks(s, t, base) <==> t.lost != s.lost
    ensures forall f: nat :: Orphan(s, base, f) ==> Orphan(t, base, f)
  {
    hide Orphan, Inv;
    forall f: nat ensures (f in s.lost <==> Orphan(s, base, f)) && (f in t.lost <==> Orphan(t, base, f)) {
      LostMeans(s, base, f);
      LostMeans(t, base, f);
    }
    if t.lost != s.lost {
      var f :| f in t.lost && f !in s.lost;
      assert Orphan(t, base, f) && !Orphan(s, base, f);
    }
  }

  /** Exactly the steps that are not harmless leave frames behind that nothing accounts for. */
  lemma LossExact(s: State, op: Op, base: set<Frame>)
    requires Inv(s, base) && s.space.pm.Valid() && Allowed(s, op) && Apply(s, op).Some?
    ensures Leaks(s, Apply(s, op).value, base) <==> !Harmless(s, op)
  {
    hide Inv, Allowed, Change, Loss, Harmless, Leaks;
    var t := Apply(s, op).value;
    StepOwned(s, op, base);
    LossNew(s, op, base);
    LossEmpty(s, op);
    LeaksMeans(s, t, base);
    if Loss(s, op) != {} {
      var f :| f in Loss(s, op);
      assert f in t.lost && f !in s.lost;
    } else {
      assert t.lost == s.lost;
    }
  }

  /** `region_copy` leaves frames behind that nothing accounts for exactly if it got some and the heap then
      does not serve it: it has no room, or no frame to grow by. */
  lemma CopyLeaks(s: State, i: nat, step: CopyStep, base: set<Frame>)
    requires Inv(s, base) && s.space.pm.Valid() && Allowed(s, CopyRegion(i, step))
             && Apply(s, CopyRegion(i, step)).Some?
    ensures var m := MapKernel(s.space, s.regions[i].num);
            Leaks(s, Apply(s, CopyRegion(i, step)).value, base) <==> m.MappedAt? && !HeapServes(m.space, step)
  {
    hide Inv, Change, Loss, Leaks, MapKernel, RegionMapped, HeapServes;
    LossExact(s, CopyRegion(i, step), base);
  }

  /** What a step loses was not lost before. */
  lemma LossNew(s: State, op: Op, base: set<Frame>)
    requires Inv(s, base) && s.space.pm.Valid() && Allowed(s, op)
    ensures Loss(s, op) !! s.lost
  {
    hide Owned, Lookup, OwnedBy, FrameRange, FramesOf, Apart, Leading, ExactPasses, AllInArea, Holds,
      PageTables.Space.WF, PageTables.Space.NoEmptyTable, InHuge, IsPage;
    var m, held := s.space, base + FramesOf(s.regions) + s.lost;
    match op {
      case MapFresh(v, num, align, attr) =>
        OwnedByApart(m, v, num, held);
        if Alloc(m.pm, num, align).1.Some? { TakingRun(m, Alloc(m.pm, num, align).1.value, num, held); }
      case MapGiven(v, _, num, _) => OwnedByApart(m, v, num, held);
      case Unmap(v, num, _) => OwnedByApart(m, v, Leading(m, v, num), held);
      case NewRegion(_, _, _, _) =>
      case MapRegion(i, at, _) =>
        var r := s.regions[i];
        SplitAt(s.regions, i);
        if r.page != 0 {
          var k := Skip(m, r.frame, r.page, r.num);
          OwnedByApart(m, r.page, r.num, held);
          OwnedByApart(m, r.page + k, r.num - k, held);
        }
      case UnmapRegion(i) => OwnedByApart(m, s.regions[i].page, Leading(m, s.regions[i].page, s.regions[i].num), held);
      case CopyRegion(i, _) =>
        if MapKernel(m, s.regions[i].num).MappedAt? { KernelOwned(m, s.regions[i].num, held); }
      case FreeRegion(_) =>
    }
  }

  // ---- runs

  ghost predicate Reaches(s: State, ops: seq<Op>, t: State)
    decreases |ops|
  {
    if ops == [] then t == s
    else
      && s.space.pm.Valid() && Allowed(s, ops[0]) && Apply(s, ops[0]).Some?
      && Reaches(Apply(s, ops[0]).value, ops[1..], t)
  }

  /** Every step of the run is harmless. */
  ghost predicate Careful(s: State, ops: seq<Op>)
    decreases |ops|
  {
    ops != [] ==>
      && s.space.pm.Valid() && Harmless(s, ops[0])
      && (Apply(s, ops[0]).Some? ==> Careful(Apply(s, ops[0]).value, ops[1..]))
  }

  lemma {:induction false} RunLost(s: State, ops: seq<Op>, t: State, base: set<Frame>)
    requires Inv(s, base) && Reaches(s, ops, t)
    ensures Inv(t, base) && s.lost <= t.lost
    ensures t.lost == s.lost <==> Careful(s, ops)
    decreases |ops|
  {
    hide Inv, Allowed, Change, Loss, Harmless;
    if ops != [] {
      var u := Apply(s, ops[0]).value;
      StepOwned(s, ops[0], base);
      LossEmpty(s, ops[0]);
      LossNew(s, ops[0], base);
      RunLost(u, ops[1..], t, base);
      if Loss(s, ops[0]) != {} {
        var f :| f in Loss(s, ops[0]);
        assert f in u.lost && f !in s.lost && f in t.lost;
      } else {
        assert u.lost == s.lost;
      }
    }
  }

  /** Over every run nothing is owned twice; frames that nothing accounts for stay so; and there are new ones
      if and only if some step was not harmless. */
  lemma RunOwned(s: State, ops: seq<Op>, t: State, base: set<Frame>)
    requires Inv(s, base) && Reaches(s, ops, t)
    ensures Inv(t, base) && forall f: nat :: Orphan(s, base, f) ==> Orphan(t, base, f)
    ensures Leaks(s, t, base) <==> !Careful(s, ops)
  {
    hide Inv, Orphan, Leaks, Careful, Reaches;
    RunLost(s, ops, t, base);
    LeaksMeans(s, t, base);
  }
}
