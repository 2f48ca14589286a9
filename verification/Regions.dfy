/** Memory regions of a task and their copies for a forked child (kernel/mm/region.c,
    kernel/sched/task.c `task_copy`). The contents of a page are the words of its frame. */
module Regions {
  import opened Lists
  import opened PageBitmap
  import opened PageTables
  import opened PageSteps
  import opened PageMap
  import opened PageRefinement
  import opened PageRanges
  import opened ExactMaps
  import opened PageOwnership
  import opened PageRoundTrip

  /** A region without an address has page 0, one without memory has frame 0. */
  datatype Region = Region(kind: nat, area: nat, page: nat, frame: Frame, num: nat)

  const KERNEL_AREA := 1
  const USER_AREA := 2

  const CODE := 1
  const READ_ONLY := 2
  const DATA := 3
  const HEAP := 4
  const STACK := 5

  /** The attributes that a region is mapped with. */
  function RegionAttr(r: Region): Attr {
    Attr(r.kind in {DATA, HEAP, STACK}, false, r.kind == READ_ONLY, r.area == USER_AREA, true, true)
  }

  /** The frames that a region owns. */
  function Holds(r: Region): set<Frame> { if r.frame == 0 then {} else FrameRange(r.frame, r.num) }

  /** Pages `[v, v + num)` are mapped to frames `[f, f + num)`, in order. */
  ghost predicate PagesAt(s: Space, v: nat, f: Frame, num: nat) {
    && SmallPages(s, v, num)
    && forall u: nat :: v <= u < v + num ==>
         Lookup(s.mem, s.cr3, u) != ZERO && Lookup(s.mem, s.cr3, u).frame == f + (u - v)
  }

  /** The region's pages are mapped to its frames. */
  ghost predicate RegionMapped(s: Space, r: Region) { PagesAt(s, r.page, r.frame, r.num) }

  /** Copy the contents of `num` pages from `src` on to the pages from `dst` on. */
  function CopyPages(s: Space, dst: nat, src: nat, num: nat): (t: Space)
    ensures t.pm == s.pm
    decreases num
  {
    if num == 0 then s
    else
      var f, g := Lookup(s.mem, s.cr3, dst).frame, Lookup(s.mem, s.cr3, src).frame;
      var t := if g in s.mem then s.(mem := s.mem[f := s.mem[g]]) else s;
      CopyPages(t, dst + 1, src + 1, num - 1)
  }

  const KERNEL_PAGES := Attr(false, false, false, false, false, false)

  /** Fill the pages from `at` on with the contents of the region, and unmap them: they are the copy. */
  function FillCopy(s: Space, r: Region, at: nat): (c: (Space, Region))
    requires s.pm.Valid()
    ensures c.0.pm.Valid()
  {
    var t := CopyPages(s, at, r.page, r.num);
    (UnmapPages(t, at, r.num, true).0, r.(frame := Lookup(t.mem, t.cr3, at).frame))
  }

  /** Map fresh frames at `v` and give them to the region; the region is left with what page 0 is mapped
      to if there are none. */
  function RegionMapFresh(s: Space, r: Region, v: nat): (c: Option<(Space, Region, bool)>)
    requires s.pm.Valid()
  {
    var (pm, got) := Alloc(s.pm, r.num, 0);
    match got
    case None => Some((s, r.(frame := Lookup(s.mem, s.cr3, 0).frame), false))
    case Some(f) =>
      match MapPages(s.(pm := pm), v, f, r.num, RegionAttr(r))
      case None => None
      case Some(t) => Some((t, r.(page := v, frame := Lookup(t.mem, t.cr3, v).frame), true))
  }

  /** `region_map`: memory, the region and success afterwards. `at` is the run of unmapped pages that is
      found for a region without an address. None if there is no memory for a table. */
  function RegionMap(s: Space, r: Region, at: nat, kernelEnd: nat): (c: Option<(Space, Region, bool)>)
    requires s.pm.Valid()
  {
    if r.page == 0 then RegionMapFresh(s, r, at)
    else if r.frame == 0 then
      if AllInArea(r.page, r.num, kernelEnd) then RegionMapFresh(s, r, r.page)
      else Some((s, r.(frame := Lookup(s.mem, s.cr3, 0).frame), false))
    else
      match ExactMap(s, r.frame, r.page, r.num, RegionAttr(r), kernelEnd)
      case Done(t) => Some((t, r, true))
      case Refused => Some((s, r, false))
      case Starved => None
  }

  /** A run of unmapped small pages. */
  ghost predicate Unmapped(s: Space, at: nat, num: nat) {
    SmallPages(s, at, num) && forall u: nat :: at <= u < at + num ==> Lookup(s.mem, s.cr3, u) == ZERO
  }

  // ---- writing to frames that hold no table

  /** Same tables and translations, same allocation; memory differs in frames that hold no table. */
  ghost predicate SameTables(s: Space, t: Space) {
    && t.cr3 == s.cr3 && t.pm == s.pm && t.tasks == s.tasks
    && (forall n :: s.InTree(n) ==> Table(t.mem, n) == Table(s.mem, n))
    && (forall n, i: nat :: s.InTree(n) ==> Slot(t.mem, n, i) == Slot(s.mem, n, i))
  }

  lemma WritingForeign(s: Space, f: Frame, data: seq<Entry>)
    requires s.WF() && s.Foreign(f) && |data| == PTE_COUNT
    ensures var t := s.(mem := s.mem[f := data]); t.WF() && SameTables(s, t)
  {
    var t := s.(mem := s.mem[f := data]);
    SameTree(s, t);
    forall n | s.InTree(n)
      ensures Table(t.mem, n) == Table(s.mem, n) && forall i: nat :: Slot(t.mem, n, i) == Slot(s.mem, n, i)
    {
      ForeignFrame(s, f, data, n);
    }
    forall n, i: nat | t.HasSlot(n, i) ensures EntryOk(Slot(t.mem, n, i), n.Depth()) {
      assert s.InTree(n) && s.HasSlot(n, i);
    }
    forall q: nat | t.IsRoot(q) ensures IsTable(Word(t.mem, q, WINDOW)) && Word(t.mem, q, WINDOW).frame == q {
      assert s.InTree(Top(q)) && Table(s.mem, Top(q)) == Some(q);
    }
  }

  lemma SameTablesFacts(s: Space, t: Space, held: set<Frame>)
    requires s.WF() && t.WF() && SameTables(s, t)
    ensures SameMap(s, t) && (s.NoEmptyTable() ==> t.NoEmptyTable()) && (Owned(s, held) ==> Owned(t, held))
    ensures forall f: nat :: s.NotTable(f) == t.NotTable(f)
  {
    SameTree(s, t);
    forall u: nat | IsPage(u)
      ensures Lookup(t.mem, s.cr3, u) == Lookup(s.mem, s.cr3, u) && InHuge(t.mem, s.cr3, u) == InHuge(s.mem, s.cr3, u)
    {
      PathInTree(s, u);
    }
    if s.NoEmptyTable() {
      forall n | t.InTree(n) && n.Sub? && Table(t.mem, n).Some? ensures !t.AllZero(n) {
        assert s.InTree(n) && !s.AllZero(n);
        var j :| 0 <= j < PTE_COUNT && Slot(s.mem, n, j) != ZERO;
        assert Slot(t.mem, n, j) != ZERO;
      }
    }
    if Owned(s, held) {
      forall m, j: nat | s.HasSlot(m, j) && m.Depth() == 3 ensures Slot(t.mem, m, j) == Slot(s.mem, m, j) {
        assert s.InTree(m);
      }
      OwnedSame(s, t, held);
    }
    forall f: nat ensures s.NotTable(f) == t.NotTable(f) {
      assert forall n :: s.InTree(n) ==> Table(t.mem, n) == Table(s.mem, n);
    }
  }

  lemma PagesAtSame(s: Space, t: Space, v: nat, f: Frame, num: nat)
    requires t.cr3 == s.cr3 && SameMap(s, t) && PagesAt(s, v, f, num)
    ensures PagesAt(t, v, f, num)
  {
    forall u: nat | v <= u < v + num
      ensures Lookup(t.mem, t.cr3, u) == Lookup(s.mem, s.cr3, u) && InHuge(t.mem, t.cr3, u) == InHuge(s.mem, s.cr3, u)
    {
      hide Lookup, InHuge, I4;
      assert IsPage(u);
    }
  }

  /** Frames `[f, f + num)` hold no table and are not free. */
  ghost predicate ForeignRange(s: Space, f: Frame, num: nat)
    requires s.pm.Valid()
  {
    forall g: nat :: f <= g < f + num ==> s.Foreign(g) && |s.mem[g]| == PTE_COUNT
  }

  /** In `t`, frames `[f, f + num)` hold what frames `[sf, sf + num)` hold in `s`, and every other
      frame is as in `s`. */
  ghost predicate Copied(s: Space, t: Space, f: Frame, sf: Frame, num: nat) {
    && t.mem.Keys == s.mem.Keys
    && (forall g: nat :: f <= g < f + num ==> CopiedAt(s, t, f, sf, g))
    && (forall g: nat :: g in s.mem && !(f <= g < f + num) ==> t.mem[g] == s.mem[g])
  }

  ghost predicate CopiedAt(s: Space, t: Space, f: Frame, sf: Frame, g: Frame)
    requires f <= g
  {
    g in t.mem && sf + (g - f) in s.mem && t.mem[g] == s.mem[sf + (g - f)]
  }

  /** Copying pages to frames that hold no table moves the contents and leaves the tables alone. */
  lemma {:induction false} CopyingPages(s: Space, dst: nat, src: nat, num: nat, f: Frame, sf: Frame)
    requires s.WF() && PagesAt(s, dst, f, num) && PagesAt(s, src, sf, num)
    requires ForeignRange(s, f, num) && ForeignRange(s, sf, num) && (f + num <= sf || sf + num <= f)
    ensures var t := CopyPages(s, dst, src, num); t.WF() && SameTables(s, t) && Copied(s, t, f, sf, num)
    decreases num
  {
    hide PageTables.Space.NotTable, SameTables, Copied, PagesAt, ForeignRange, Lookup, SameMap;
    if num == 0 {
      CopiedNothing(s, f, sf);
    } else {
      FirstPages(s, dst, src, num, f, sf);
      WritingForeign(s, f, s.mem[sf]);
      var t := s.(mem := s.mem[f := s.mem[sf]]);
      SameTablesFacts(s, t, {});
      NextPage(s, t, dst, num, f);
      NextPage(s, t, src, num, sf);
      NextFrames(s, t, f, num);
      NextFrames(s, t, sf, num);
      CopyingPages(t, dst + 1, src + 1, num - 1, f + 1, sf + 1);
      var w := CopyPages(s, dst, src, num);
      SameTablesTrans(s, t, w);
      CopiedStep(s, t, w, f, sf, num);
    }
  }

  lemma CopiedNothing(s: Space, f: Frame, sf: Frame)
    ensures SameTables(s, s) && Copied(s, s, f, sf, 0)
  {
  }

  lemma FirstPages(s: Space, dst: nat, src: nat, num: nat, f: Frame, sf: Frame)
    requires s.pm.Valid() && num > 0 && PagesAt(s, dst, f, num) && PagesAt(s, src, sf, num)
    requires ForeignRange(s, f, num) && ForeignRange(s, sf, num)
    ensures Lookup(s.mem, s.cr3, dst).frame == f && Lookup(s.mem, s.cr3, src).frame == sf
    ensures s.Foreign(f) && f in s.mem && sf in s.mem && |s.mem[sf]| == PTE_COUNT
  {
    hide Lookup;
    assert s.Foreign(f) && s.Foreign(sf);
  }

  lemma NextPage(s: Space, t: Space, v: nat, num: nat, f: Frame)
    requires num > 0 && t.cr3 == s.cr3 && SameMap(s, t) && PagesAt(s, v, f, num)
    ensures PagesAt(t, v + 1, f + 1, num - 1)
  {
    PagesAtSame(s, t, v, f, num);
  }

  lemma NextFrames(s: Space, t: Space, f: Frame, num: nat)
    requires num > 0 && s.pm.Valid() && t.pm == s.pm && ForeignRange(s, f, num)
    requires forall g: nat :: s.NotTable(g) == t.NotTable(g)
    requires forall g: nat :: g in s.mem && |s.mem[g]| == PTE_COUNT ==> g in t.mem && |t.mem[g]| == PTE_COUNT
    ensures ForeignRange(t, f + 1, num - 1)
  {
    hide PageTables.Space.NotTable;
    forall g: nat | f + 1 <= g < f + num ensures t.Foreign(g) && |t.mem[g]| == PTE_COUNT {
      assert s.Foreign(g);
    }
  }

  lemma SameTablesTrans(s: Space, t: Space, u: Space)
    requires SameTables(s, t) && SameTables(t, u)
    ensures SameTables(s, u)
  {
    SameTree(s, t);
  }

  lemma CopiedStep(s: Space, t: Space, w: Space, f: Frame, sf: Frame, num: nat)
    requires num > 0 && f in s.mem && sf in s.mem && t.mem == s.mem[f := s.mem[sf]] && (f + num <= sf || sf + num <= f)
    requires Copied(t, w, f + 1, sf + 1, num - 1)
    ensures Copied(s, w, f, sf, num)
  {
    forall g: nat | f <= g < f + num ensures CopiedAt(s, w, f, sf, g) {
      if g > f { assert CopiedAt(t, w, f + 1, sf + 1, g); }
    }
  }

  // ---- copying a region

  /** Taking a free run: its frames are held, and hold no table. */
  lemma TakingRun(s: Space, f: Frame, num: nat, held: set<Frame>)
    requires s.WF() && s.NoEmptyTable() && Owned(s, held) && s.pm.RunFree(f, num)
    ensures var t := s.(pm := s.pm.Mark(f, num, true));
            && t.WF() && t.NoEmptyTable() && Owned(t, held + FrameRange(f, num)) && ForeignRange(t, f, num)
            && FrameRange(f, num) !! held
  {
    var t := s.(pm := s.pm.Mark(f, num, true));
    SameTree(s, t);
    forall g: nat ensures IsTab(t, g) == IsTab(s, g) && IsLeafFrame(t, g) == IsLeafFrame(s, g) {
      SameRoles(s, t, g);
    }
    assert forall m, j: nat :: IsLeaf(s, m, j) == IsLeaf(t, m, j);
    forall g: nat | f <= g < f + num
      ensures s.pm.IsFree(g) && g !in held && !IsTab(s, g) && !IsLeafFrame(s, g) && t.Foreign(g)
              && |t.mem[g]| == PTE_COUNT
    {
      assert s.pm.IsFree(g);
      assert s.pm.Covers(g) && !s.pm.IsUsed(g);
      assert t.NotTable(g) by {
        forall n | t.InTree(n) ensures Table(t.mem, n) != Some(g) { assert s.InTree(n); }
      }
    }
  }

  /** Held frames hold no table. */
  lemma HeldForeign(s: Space, held: set<Frame>)
    requires s.WF() && Owned(s, held)
    ensures forall g: nat :: g in held ==> s.Foreign(g) && |s.mem[g]| == PTE_COUNT
  {
    forall g: nat | g in held ensures s.Foreign(g) && |s.mem[g]| == PTE_COUNT {
      assert s.pm.IsUsed(g) && s.pm.Covers(g) && !IsTab(s, g);
    }
  }

  lemma LeafNotZero()
    ensures Present in LeafFlags(KERNEL_PAGES)
  {
  }

  /** Frames `[c, c + num)` of `t` hold what frames `[f, f + num)` of `s` hold. */
  ghost predicate SameContents(s: Space, f: Frame, t: Space, c: Frame, num: nat) {
    forall g: nat :: c <= g < c + num ==> CopiedAt(s, t, c, f, g)
  }

  lemma FirstFrame(s: Space, v: nat, f: Frame, num: nat)
    requires PagesAt(s, v, f, num) && num > 0
    ensures Lookup(s.mem, s.cr3, v).frame == f
  {
  }

  /** Everything that a task's regions hold. */
  function FramesOf(rs: seq<Region>): set<Frame> {
    if rs == [] then {} else Holds(rs[0]) + FramesOf(rs[1..])
  }

  /** No two regions share a frame. */
  predicate Apart(rs: seq<Region>) {
    rs == [] || (Holds(rs[0]) !! FramesOf(rs[1..]) && Apart(rs[1..]))
  }

  /** The child's regions match the parent's: same order, kind, area, address and length, and the
      same contents at the moment of the fork. */
  ghost predicate Matches(s: Space, rs: seq<Region>, t: Space, cs: seq<Region>) {
    && |cs| == |rs|
    && forall i :: 0 <= i < |rs| ==>
         cs[i] == rs[i].(frame := cs[i].frame) && SameContents(s, rs[i].frame, t, cs[i].frame, cs[i].num)
  }

  /** A region in front of others. */
  lemma MoreRegions(c: Region, cs: seq<Region>, held: set<Frame>)
    ensures FramesOf([c] + cs) == Holds(c) + FramesOf(cs)
    ensures held + FramesOf([c] + cs) == held + Holds(c) + FramesOf(cs)
    ensures Apart([c] + cs) <==> Holds(c) !! FramesOf(cs) && Apart(cs)
  {
    assert ([c] + cs)[1..] == cs;
  }
}
