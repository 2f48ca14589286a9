/** When a fork is safe, by what can be checked before it: the lowest unmapped kernel page is not the first
    of its PML4 slot, and the slot has pages enough for what the fork maps. */
module ForkRoom {
  import opened Lists
  import opened PageBitmap
  import opened PageTables
  import opened PageMap
  import opened PageRefinement
  import opened PageRoundTrip
  import opened KernelPages
  import opened Regions
  import opened RegionCopies
  import opened PageSync
  import opened KernelTop
  import opened Coherence
  import opened Forks

  /** The unmapped pages of the slot that begins with page `b`. */
  function FreeIn(s: Space, b: nat): set<nat> {
    set u: nat | b <= u < b + SLOT_PAGES && Lookup(s.mem, s.cr3, u) == ZERO
  }

  /** The most pages that a region has. */
  function MostPages(rs: seq<Region>): nat {
    if rs == [] then 0 else if rs[0].num > MostPages(rs[1..]) then rs[0].num else MostPages(rs[1..])
  }

  /** The slot of the lowest unmapped kernel page is begun, and has more than `n` unmapped pages. */
  predicate SlotRoom(s: Space, n: nat) {
    Find(s, 1).Some? && SlotStart(Find(s, 1).value) < Find(s, 1).value && |FreeIn(s, SlotStart(Find(s, 1).value))| > n
  }

  lemma {:induction false} Cut(a: set<nat>, r: set<nat>)
    ensures |a - r| >= |a| - |r|
    decreases |r|
  {
    if r == {} {
      assert a - r == a;
    } else {
      var x :| x in r;
      var b := a - (r - {x});
      Cut(a, r - {x});
      assert a - r == b - {x};
      if x !in b { assert b - {x} == b; }
    }
  }

  /** A slot of the kernel half, before the window. */
  predicate SlotAt(b: nat) { FIRST <= b && b + SLOT_PAGES <= WINDOW_PAGE }

  /** Mapping takes as many unmapped pages as it maps. */
  lemma FreeAfter(s: Space, num: nat, b: nat)
    requires s.WF() && s.NoEmptyTable() && MapKernel(s, num).MappedAt? && SlotAt(b)
    ensures |FreeIn(MapKernel(s, num).space, b)| >= |FreeIn(s, b)| - num
  {
    hide MapKernel, Lookup, InHuge, Advances, PagesAt, ForeignRange, IsPage;
    MappingKernel(s, num);
    var m := MapKernel(s, num);
    var rest := FreeIn(s, b) - FrameRange(m.page, num);
    CountFrames(m.page, num);
    Cut(FreeIn(s, b), FrameRange(m.page, num));
    forall u | u in rest ensures u in FreeIn(m.space, b) {
      assert !(m.page <= u < m.page + num) by { InFrames(u, m.page, num); }
      BeforeWindow(u);
    }
    Smaller(rest, FreeIn(m.space, b));
  }

  lemma InFrames(u: nat, at: nat, num: nat)
    ensures u in FrameRange(at, num) <==> at <= u < at + num
  {
  }

  /** If the slot has an unmapped page, what is found is not beyond it. */
  lemma FoundNear(s: Space, b: nat)
    requires SlotAt(b) && FreeIn(s, b) != {} && Find(s, 1).Some?
    ensures FIRST <= Find(s, 1).value < b + SLOT_PAGES
  {
    hide Lookup;
    var u :| u in FreeIn(s, b);
    assert RunUnmapped(s, u, 1);
  }

  lemma GrowthNear(s: Space, r: Region, step: CopyStep, b: nat)
    requires s.WF() && s.NoEmptyTable() && SlotAt(b) && |FreeIn(s, b)| > r.num && Growth(s, r, step).Some?
    ensures FIRST <= Growth(s, r, step).value < b + SLOT_PAGES
  {
    hide Find, MapPages, FreeIn, Alloc, Advances, PageTables.Space.WF, PageTables.Space.NoEmptyTable;
    WFPm(s);
    FreeAfter(s, r.num, b);
    MappingKernel(s, r.num);
    FoundNear(MapKernel(s, r.num).space, b);
  }

  /** A copy leaves at most one page fewer. */
  lemma FreeCopied(s: Space, r: Region, step: CopyStep, b: nat)
    requires s.WF() && s.NoEmptyTable() && Copyable(s, r) && CopyOne(s, r, step).Copies? && SlotAt(b)
    ensures |FreeIn(CopyOne(s, r, step).space, b)| >= |FreeIn(s, b)| - 1
  {
    hide CopyOne, Lookup, InHuge, Growth, Advances, IsPage;
    CopyKeeps(s, r, step);
    var t, g := CopyOne(s, r, step).space, Growth(s, r, step);
    AdvancesFacts(s, t);
    var rest := if g.Some? then FreeIn(s, b) - {g.value} else FreeIn(s, b);
    forall u | u in rest ensures u in FreeIn(t, b) { BeforeWindow(u); }
    Smaller(rest, FreeIn(t, b));
  }

  lemma {:induction false} GrowthsNear(s: Space, rs: seq<Region>, steps: seq<CopyStep>, b: nat)
    requires Good(s) && s.pm.Valid() && |steps| == |rs| && AllCopyable(s, rs) && SlotAt(b)
    requires |FreeIn(s, b)| > MostPages(rs) + |rs| && CopyAll(s, rs, steps).Copies?
    ensures forall h :: h in Growths(s, rs, steps) ==> FIRST <= h < b + SLOT_PAGES
    decreases |rs|
  {
    hide CopyOne, Good, Copyable, FreeIn, Growth, SlotsFollow, Beside;
    if rs != [] {
      var c := CopyOne(s, rs[0], steps[0]);
      assert s.WF() && s.NoEmptyTable() by { GoodTables(s); }
      assert Copyable(s, rs[0]);
      if Growth(s, rs[0], steps[0]).Some? { GrowthNear(s, rs[0], steps[0], b); }
      if c.ok {
        CopySeen(s, rs[0], steps[0]);
        FreeCopied(s, rs[0], steps[0], b);
        AllStillCopyable(s, rs, steps[0]);
        GrowthsNear(c.space, rs[1..], steps[1..], b);
      }
    }
  }

  /** With room in the slot, every slot that the fork needs is taken already. */
  lemma RoomSuffices(s: Space, rs: seq<Region>, steps: seq<CopyStep>)
    requires Good(s) && s.pm.Valid() && |steps| == |rs| && ForkReady(s, rs) && Fork(s, rs, steps).Copies?
    requires SlotRoom(s, MostPages(rs) + |rs|)
    ensures SlotTaken(s, Find(s, 1).value) && AllTaken(s, ForkGrowths(s, rs, steps))
  {
    hide NewTask, CopyAll, NewReady, Copyable, AgreeKernel, PageTables.Space.WF, Find, Untouched, SlotTaken, Growths,
      PageTables.Space.NoEmptyTable, Coherent, Writables, FreeIn, Fixed, MostPages;
    var v := Find(s, 1).value;
    var b := SlotStart(v);
    assert v < WINDOW_PAGE && FIRST <= v;
    assert SlotAt(b) by { Slots(v); }
    NewTaskGood(s, v);
    NewTaskKeeps(s, v);
    var u := NewTask(s, v).value;
    UntouchedCopyable(s, u, rs);
    assert FreeIn(u, b) == FreeIn(s, b) by { SameFree(s, u, b); }
    GrowthsNear(u, rs, steps, b);
    NearTaken(s, v, v);
    forall h | h in Growths(u, rs, steps) ensures SlotTaken(s, h) {
      NearSlots(v, h);
      NearTaken(s, v, h);
    }
  }

  lemma Slots(v: nat)
    requires FIRST <= v < WINDOW_PAGE
    ensures SlotAt(SlotStart(v))
  {
  }

  lemma NearSlots(v: nat, h: nat)
    requires h < SlotStart(v) + SLOT_PAGES
    ensures SlotStart(h) <= SlotStart(v)
  {
  }

  lemma SameFree(s: Space, t: Space, b: nat)
    requires SameMap(s, t) && t.cr3 == s.cr3 && SlotAt(b)
    ensures FreeIn(t, b) == FreeIn(s, b)
  {
    hide Lookup, InHuge, IsPage;
    forall u: nat | b <= u < b + SLOT_PAGES ensures Lookup(t.mem, t.cr3, u) == Lookup(s.mem, s.cr3, u) {
      BeforeWindow(u);
    }
  }
}
