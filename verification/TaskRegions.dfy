/** The loop of `task_switch` that maps the regions of the task (kernel/sched/task.c). Every region of a
    task has an address and frames: it was mapped before it was added, or copied from one that was. */
module TaskRegions {
  import opened PageTables
  import opened PageSteps
  import opened PageMap
  import opened PageRefinement
  import opened PageRanges
  import opened ExactMaps
  import opened KernelPages
  import opened Regions

  /** Memory after the loop, how many regions it mapped, and whether that is all of them. */
  datatype LoopResult = Looped(space: Space, mapped: nat, ok: bool) | NoTable

  function MapRegions(s: Space, rs: seq<Region>, kernelEnd: nat): (r: LoopResult)
    requires s.pm.Valid()
    ensures r.Looped? ==> r.space.pm.Valid() && r.mapped <= |rs| && (r.ok <==> r.mapped == |rs|)
    decreases |rs|
  {
    if rs == [] then Looped(s, 0, true)
    else
      match ExactMap(s, rs[0].frame, rs[0].page, rs[0].num, RegionAttr(rs[0]), kernelEnd)
      case Refused => Looped(s, 0, false)
      case Starved => NoTable
      case Done(t) =>
        match MapRegions(t, rs[1..], kernelEnd)
        case NoTable => NoTable
        case Looped(u, n, ok) => Looped(u, n + 1, ok)
  }

  /** The region covers the page. */
  predicate Covers(r: Region, u: nat) { r.page <= u < r.page + r.num }

  /** The entry that a region's page gets, if it was `e`. */
  function Put(e: Entry, r: Region, u: nat): Entry { Placed(e, r.page, r.frame, r.num, LeafFlags(RegionAttr(r)), u) }

  /** The entry of page `u` after the regions were mapped in order. */
  function After(e: Entry, rs: seq<Region>, u: nat): Entry
    decreases |rs|
  {
    if rs == [] then e else After(Put(e, rs[0], u), rs[1..], u)
  }

  ghost predicate AllSmall(s: Space, rs: seq<Region>) {
    forall i :: 0 <= i < |rs| ==> SmallPages(s, rs[i].page, rs[i].num)
  }

  /** Every page has the entry that mapping the regions gives it. */
  ghost predicate RegionsMapped(s: Space, t: Space, rs: seq<Region>) {
    forall u: nat :: IsPage(u) ==>
      && Lookup(t.mem, s.cr3, u) == After(Lookup(s.mem, s.cr3, u), rs, u)
      && InHuge(t.mem, s.cr3, u) == InHuge(s.mem, s.cr3, u)
  }

  /** What the loop does to every page of the loaded address space, and that it keeps all else. */
  lemma {:induction false} MappingRegions(s: Space, rs: seq<Region>, kernelEnd: nat)
    requires s.WF() && s.NoEmptyTable() && AllSmall(s, rs) && MapRegions(s, rs, kernelEnd).Looped?
    ensures var l := MapRegions(s, rs, kernelEnd);
            && Follows(s, l.space) && TopGuarded(s, l.space) && l.space.NoEmptyTable()
            && RegionsMapped(s, l.space, rs[..l.mapped])
    decreases |rs|
  {
    hide ExactMap, TopGuarded, TablesStay, Undisturbed, Lookup, InHuge, IsPage, PageTables.Space.WF,
      PageTables.Space.NoEmptyTable, OthersStay, Put;
    GuardSelf(s);
    WFPm(s);
    if rs != [] {
      var r := rs[0];
      var e := ExactMap(s, r.frame, r.page, r.num, RegionAttr(r), kernelEnd);
      if e.Done? {
        var t := e.space;
        ExactMapping(s, r.frame, r.page, r.num, RegionAttr(r), kernelEnd);
        SmallKept(s, t, rs);
        MappingRegions(t, rs[1..], kernelEnd);
        var n := MapRegions(t, rs[1..], kernelEnd).mapped;
        var w := MapRegions(t, rs[1..], kernelEnd).space;
        FollowsTrans(s, t, w);
        GuardTrans(s, t, w);
        MappedMore(s, t, w, rs, n);
      }
    }
  }

  lemma GuardSelf(s: Space)
    requires s.WF()
    ensures Follows(s, s) && TopGuarded(s, s)
  {
    hide Lookup;
    forall j: nat ensures SameEntry(Word(s.mem, s.cr3, j), Word(s.mem, s.cr3, j)) {}
  }

  lemma SmallKept(s: Space, t: Space, rs: seq<Region>)
    requires rs != [] && AllSmall(s, rs) && t.cr3 == s.cr3
    requires ExactlyMapped(s, t, rs[0].page, rs[0].frame, rs[0].num, LeafFlags(RegionAttr(rs[0])))
    ensures AllSmall(t, rs[1..])
  {
    hide Lookup, InHuge, IsPage;
    forall i | 0 <= i < |rs| - 1 ensures SmallPages(t, rs[1..][i].page, rs[1..][i].num) {
      var r := rs[i + 1];
      assert SmallPages(s, r.page, r.num);
      forall u: nat | r.page <= u < r.page + r.num ensures IsPage(u) && !InHuge(t.mem, t.cr3, u) {
        assert IsPage(u) && !InHuge(s.mem, s.cr3, u);
      }
    }
  }

  lemma MappedMore(s: Space, t: Space, w: Space, rs: seq<Region>, n: nat)
    requires t.cr3 == s.cr3 && rs != [] && n < |rs|
    requires ExactlyMapped(s, t, rs[0].page, rs[0].frame, rs[0].num, LeafFlags(RegionAttr(rs[0])))
    requires RegionsMapped(t, w, rs[1..][..n])
    ensures RegionsMapped(s, w, rs[..n + 1])
  {
    hide Lookup, InHuge, IsPage;
    var all := rs[..n + 1];
    assert all[0] == rs[0] && all[1..] == rs[1..][..n];
  }

  // ---- regions that do not share pages

  /** No page belongs to two regions. */
  ghost predicate PagesApart(rs: seq<Region>) {
    forall i, j, u: nat :: 0 <= i < j < |rs| && Covers(rs[i], u) ==> !Covers(rs[j], u)
  }

  lemma {:induction false} AfterNone(e: Entry, rs: seq<Region>, u: nat)
    requires forall i :: 0 <= i < |rs| ==> !Covers(rs[i], u)
    ensures After(e, rs, u) == e
    decreases |rs|
  {
    if rs != [] {
      assert !Covers(rs[0], u) && Put(e, rs[0], u) == e;
      forall i | 0 <= i < |rs| - 1 ensures !Covers(rs[1..][i], u) { assert !Covers(rs[i + 1], u); }
      AfterNone(e, rs[1..], u);
    }
  }

  /** A page of region `i` gets that region's entry. */
  lemma {:induction false} AfterOne(e: Entry, rs: seq<Region>, u: nat, i: nat)
    requires PagesApart(rs) && i < |rs| && Covers(rs[i], u)
    ensures After(e, rs, u) == Put(e, rs[i], u)
    decreases |rs|
  {
    hide Placed, LeafFlags;
    ApartTail(rs);
    if i == 0 {
      forall j | 0 <= j < |rs| - 1 ensures !Covers(rs[1..][j], u) { assert !Covers(rs[j + 1], u); }
      AfterNone(Put(e, rs[0], u), rs[1..], u);
    } else {
      assert Put(e, rs[0], u) == e by { PutOutside(e, rs[0], u); }
      AfterOne(e, rs[1..], u, i - 1);
    }
  }

  lemma ApartTail(rs: seq<Region>)
    requires PagesApart(rs) && rs != []
    ensures PagesApart(rs[1..])
  {
    forall i, j, u: nat | 0 <= i < j < |rs| - 1 && Covers(rs[1..][i], u) ensures !Covers(rs[1..][j], u) {
      assert Covers(rs[i + 1], u);
    }
  }

  lemma PutOutside(e: Entry, r: Region, u: nat)
    requires !Covers(r, u)
    ensures Put(e, r, u) == e
  {
  }

  lemma PutInside(e: Entry, r: Region, u: nat)
    requires Covers(r, u)
    ensures Put(e, r, u) != ZERO && Put(e, r, u).frame == r.frame + (u - r.page)
  {
    assert Present in LeafFlags(RegionAttr(r));
  }

  /** A loop that succeeds leaves every region mapped to its frames. */
  lemma LoopMaps(s: Space, rs: seq<Region>, kernelEnd: nat, i: nat)
    requires s.WF() && s.NoEmptyTable() && AllSmall(s, rs) && PagesApart(rs) && i < |rs|
    requires MapRegions(s, rs, kernelEnd).Looped? && MapRegions(s, rs, kernelEnd).ok
    ensures RegionMapped(MapRegions(s, rs, kernelEnd).space, rs[i])
  {
    hide MapRegions, Lookup, InHuge, IsPage, After, TopGuarded, PageTables.Space.WF, PageTables.Space.NoEmptyTable,
      OthersStay, Put, Covers;
    MappingRegions(s, rs, kernelEnd);
    WFPm(s);
    var l, r := MapRegions(s, rs, kernelEnd), rs[i];
    assert rs[..|rs|] == rs;
    forall u: nat | r.page <= u < r.page + r.num
      ensures IsPage(u) && !InHuge(l.space.mem, l.space.cr3, u)
      ensures Lookup(l.space.mem, l.space.cr3, u) != ZERO
              && Lookup(l.space.mem, l.space.cr3, u).frame == r.frame + (u - r.page)
    {
      assert SmallPages(s, r.page, r.num);
      assert Covers(r, u) by { CoversIs(r, u); }
      AfterOne(Lookup(s.mem, s.cr3, u), rs, u, i);
      PutInside(Lookup(s.mem, s.cr3, u), r, u);
    }
  }

  lemma CoversIs(r: Region, u: nat)
    ensures Covers(r, u) <==> r.page <= u < r.page + r.num
  {
  }

  /** The region can be mapped by `vmm_map_exact` with reuse: its pages lie in an area, but for the last
      one if the first has its frame, and then it is not the only one. */
  predicate Passes(s: Space, r: Region, kernelEnd: nat) {
    r.num == 0 || if Same(s, r.page, r.frame) then r.num > 1 && AllInArea(r.page, r.num - 1, kernelEnd)
                  else AllInArea(r.page, r.num, kernelEnd)
  }

  /** Unless memory for a table is wanting, the loop succeeds exactly if every region passes at its start. */
  lemma {:induction false} LoopSucceeds(s: Space, rs: seq<Region>, kernelEnd: nat)
    requires s.WF() && s.NoEmptyTable() && AllSmall(s, rs) && PagesApart(rs) && MapRegions(s, rs, kernelEnd).Looped?
    ensures MapRegions(s, rs, kernelEnd).ok <==> forall i :: 0 <= i < |rs| ==> Passes(s, rs[i], kernelEnd)
    decreases |rs|
  {
    hide ExactMap, TopGuarded, TablesStay, Undisturbed, Lookup, InHuge, IsPage, PageTables.Space.NoEmptyTable,
      OthersStay, Follows, AllInArea, Same, Covers;
    if rs != [] {
      var r := rs[0];
      var e := ExactMap(s, r.frame, r.page, r.num, RegionAttr(r), kernelEnd);
      ExactRefused(s, r.frame, r.page, r.num, RegionAttr(r), kernelEnd);
      if e.Done? {
        var t := e.space;
        ExactMapping(s, r.frame, r.page, r.num, RegionAttr(r), kernelEnd);
        FollowsWF(s, t);
        SmallKept(s, t, rs);
        ApartTail(rs);
        LoopSucceeds(t, rs[1..], kernelEnd);
        forall i | 0 <= i < |rs| - 1 ensures Passes(t, rs[1..][i], kernelEnd) == Passes(s, rs[i + 1], kernelEnd) {
          PassesLater(s, t, rs, i + 1, kernelEnd);
        }
        if forall i :: 0 <= i < |rs| - 1 ==> Passes(t, rs[1..][i], kernelEnd) {
          forall i | 0 <= i < |rs| ensures Passes(s, rs[i], kernelEnd) {
            if i > 0 { assert Passes(t, rs[1..][i - 1], kernelEnd); }
          }
        }
        if forall i :: 0 <= i < |rs| ==> Passes(s, rs[i], kernelEnd) {
          forall i | 0 <= i < |rs| - 1 ensures Passes(t, rs[1..][i], kernelEnd) {
            assert Passes(s, rs[i + 1], kernelEnd);
          }
        }
      }
    }
  }

  lemma FollowsWF(s: Space, t: Space)
    requires Follows(s, t)
    ensures t.WF() && t.cr3 == s.cr3
  {
  }

  lemma PassesLater(s: Space, t: Space, rs: seq<Region>, i: nat, kernelEnd: nat)
    requires 0 < i < |rs| && PagesApart(rs) && AllSmall(s, rs) && t.cr3 == s.cr3
    requires ExactlyMapped(s, t, rs[0].page, rs[0].frame, rs[0].num, LeafFlags(RegionAttr(rs[0])))
    ensures Passes(t, rs[i], kernelEnd) == Passes(s, rs[i], kernelEnd)
  {
    hide Lookup, InHuge, IsPage, AllInArea;
    var r := rs[i];
    if r.num > 0 {
      assert Covers(r, r.page) && !Covers(rs[0], r.page);
      assert SmallPages(s, r.page, r.num) && IsPage(r.page);
    }
  }

  /** In particular it fails for a region of one page that is mapped to its frame already. */
  lemma OnePageFails(s: Space, r: Region, kernelEnd: nat)
    requires s.pm.Valid() && r.num == 1 && Same(s, r.page, r.frame)
    ensures MapRegions(s, [r], kernelEnd) == Looped(s, 0, false)
  {
    hide Same;
    OnePageRefused(s, r.frame, r.page, RegionAttr(r), kernelEnd);
  }

  // ---- the kernel half

  /** No kernel page has another entry. */
  ghost predicate SameKernel(s: Space, t: Space) {
    forall u: nat :: KernelPage(u) ==> Lookup(t.mem, t.cr3, u) == Lookup(s.mem, s.cr3, u)
  }

  /** The page has the entry that mapping the region would give it, or, if it is the first, its frame. */
  predicate Settled(e: Entry, r: Region, u: nat)
    requires Covers(r, u)
  {
    || e == Entry(r.frame + (u - r.page), LeafFlags(RegionAttr(r)))
    || (u == r.page && e != ZERO && e.frame == r.frame)
  }

  /** All kernel pages of the regions are settled. */
  ghost predicate KernelSettled(s: Space, rs: seq<Region>) {
    forall i, u: nat :: 0 <= i < |rs| && Covers(rs[i], u) && KernelPage(u) ==>
            Settled(Lookup(s.mem, s.cr3, u), rs[i], u)
  }

  lemma PutSettled(e: Entry, r: Region, u: nat)
    requires Covers(r, u)
    ensures Put(e, r, u) == e <==> Settled(e, r, u)
  {
  }

  /** The loop leaves the kernel's view of memory as it was if and only if every kernel page of the
      regions it maps already has the frame and the flags that the region gives it. */
  lemma ViewExact(s: Space, t: Space, rs: seq<Region>)
    requires t.cr3 == s.cr3 && PagesApart(rs) && RegionsMapped(s, t, rs)
    ensures SameKernel(s, t) <==> KernelSettled(s, rs)
  {
    hide Lookup, InHuge, IsPage, I4, After, Put, Settled, Covers;
    if SameKernel(s, t) {
      forall i, u: nat | 0 <= i < |rs| && Covers(rs[i], u) && KernelPage(u)
        ensures Settled(Lookup(s.mem, s.cr3, u), rs[i], u)
      {
        AfterOne(Lookup(s.mem, s.cr3, u), rs, u, i);
        PutSettled(Lookup(s.mem, s.cr3, u), rs[i], u);
      }
    }
    if KernelSettled(s, rs) {
      forall u: nat | KernelPage(u) ensures Lookup(t.mem, t.cr3, u) == Lookup(s.mem, s.cr3, u) {
        if i :| 0 <= i < |rs| && Covers(rs[i], u) {
          AfterOne(Lookup(s.mem, s.cr3, u), rs, u, i);
          PutSettled(Lookup(s.mem, s.cr3, u), rs[i], u);
        } else {
          AfterNone(Lookup(s.mem, s.cr3, u), rs, u);
        }
      }
    }
  }
}
