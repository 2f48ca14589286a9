/** Where pages may be mapped (kernel/mm/vmm.c, `vmm_vma_does_contain`), told by their addresses, and with
    which rights the pages of a region are mapped (kernel/mm/region.c). */
module Areas {
  import opened PageBitmap
  import opened PageTables
  import opened PageSteps
  import opened PageMap
  import opened PageRefinement
  import opened PageRanges
  import opened KernelPages
  import opened ExactMaps
  import opened Window
  import opened MapFlags
  import opened Lists
  import opened Regions
  import opened RegionCopies
  import opened TaskRegions
  import opened PageSync
  import KernelTop
  import opened Coherence
  import Vmm

  /** The canonical address of page `u`. */
  function AddressOf(u: nat): nat { u * PAGE_SIZE + if u >= FIRST then SIGN_EXTENSION else 0 }

  /** It is canonical and leads back to the page. */
  lemma AddressBack(u: nat)
    requires u < PAGE_LIMIT
    ensures Canonical(AddressOf(u)) && AddressOf(u) % PAGE_SIZE == 0 && PageOf(AddressOf(u)) == u
  {
    AddrOfPage(u, 0, u >= FIRST);
  }

  /** The address lies in the user or in the kernel area, the latter ending where the kernel image starts. */
  predicate InAreas(addr: nat, kernelStart: nat) {
    0x1000 <= addr < 0x7fff_ffff_ffff || 0xffff_8000_0000_0000 <= addr < kernelStart
  }

  /** Exactly the pages whose addresses lie in one of the two areas pass the check. */
  lemma AreaExact(u: nat, kernelEnd: nat)
    requires u < PAGE_LIMIT && FIRST <= kernelEnd <= PAGE_LIMIT
    ensures InArea(u, kernelEnd) <==> InAreas(AddressOf(u), AddressOf(kernelEnd))
  {
  }

  /** Searches for pages begin where the areas do. */
  lemma AreaStarts()
    ensures AddressOf(Vmm.AreaStart(true)) == 0x1000 && AddressOf(Vmm.AreaStart(false)) == 0xffff_8000_0000_0000
  {
  }

  /** An alignment is one of the address. */
  lemma AlignExact(u: nat, align: nat)
    ensures Vmm.AlignedAt(u, align) <==> align == 0 || AddressOf(u) % align == 0
  {
  }

  /** The pages exist and their addresses all lie in the areas. */
  predicate AddressesIn(v: nat, num: nat, kernelEnd: nat) {
    v + num <= PAGE_LIMIT && forall u: nat :: v <= u < v + num ==> InAreas(AddressOf(u), AddressOf(kernelEnd))
  }

  lemma AllAreasExact(v: nat, num: nat, kernelEnd: nat)
    requires v + num <= PAGE_LIMIT && FIRST <= kernelEnd <= PAGE_LIMIT
    ensures AllInArea(v, num, kernelEnd) <==> AddressesIn(v, num, kernelEnd)
  {
    hide InArea, InAreas, AddressOf;
    forall u: nat | v <= u < v + num ensures InArea(u, kernelEnd) <==> InAreas(AddressOf(u), AddressOf(kernelEnd)) {
      AreaExact(u, kernelEnd);
    }
  }

  /** A range of unmapped pages is refused exactly if some address of it is outside the areas; otherwise it is
      mapped, if there is memory for the tables. */
  lemma UnmappedExact(s: Space, f: Frame, v: nat, num: nat, attr: Attr, kernelEnd: nat)
    requires s.pm.Valid() && RunUnmapped(s, v, num) && v + num <= PAGE_LIMIT && FIRST <= kernelEnd <= PAGE_LIMIT
    ensures ExactMap(s, f, v, num, attr, kernelEnd) ==
            if !AddressesIn(v, num, kernelEnd) then Refused
            else match MapPages(s, v, f, num, attr)
              case None => Starved
              case Some(t) => Done(t)
  {
    hide MapPages, Lookup, InArea, InAreas, AddressOf;
    AllAreasExact(v, num, kernelEnd);
    if num > 0 { assert Lookup(s.mem, s.cr3, v) == ZERO; }
  }

  /** The pages from address 0x1000 to the end of the lower half. */
  predicate UserPages(v: nat, num: nat) { 0x1000 <= v * PAGE_SIZE && (v + num) * PAGE_SIZE <= 0x8000_0000_0000 }

  lemma UserIn(v: nat, num: nat, kernelEnd: nat)
    requires UserPages(v, num) && FIRST <= kernelEnd <= PAGE_LIMIT
    ensures AddressesIn(v, num, kernelEnd)
  {
    forall u: nat | v <= u < v + num ensures 0x1000 <= AddressOf(u) < 0x7fff_ffff_ffff {
      assert u * PAGE_SIZE + PAGE_SIZE <= (v + num) * PAGE_SIZE;
    }
  }

  // ---- the rights of a region

  /** Which attributes a region asks for, by its kind and its area. */
  lemma RegionAttrs(r: Region)
    ensures var a := RegionAttr(r);
            && (r.kind == CODE ==> !a.noExec && !a.readOnly) && (r.kind == READ_ONLY ==> !a.noExec && a.readOnly)
            && (r.kind in {DATA, HEAP, STACK} ==> a.noExec && !a.readOnly)
            && (a.user <==> r.area == USER_AREA) && a.save && a.reuse && !a.noCache
  {
  }

  /** A region of unmapped pages that is mapped: each page has its frame; user code can reach it exactly if
      the region is in the user area, it can be written unless the region is read-only, it cannot be
      executed exactly if the region is for data, heap or stack, and unmapping will not free its frame. */
  lemma RegionRights(s: Space, r: Region, kernelEnd: nat, u: nat)
    requires s.WF() && SmallPages(s, r.page, r.num) && RunUnmapped(s, r.page, r.num) && Covers(r, u)
             && CODE <= r.kind <= STACK
    requires ExactMap(s, r.frame, r.page, r.num, RegionAttr(r), kernelEnd).Done?
    ensures var t := ExactMap(s, r.frame, r.page, r.num, RegionAttr(r), kernelEnd).space;
            var e := Lookup(t.mem, t.cr3, u);
            && e.frame == r.frame + (u - r.page)
            && (Allows(t, u, User) <==> r.area == USER_AREA) && (Allows(t, u, Writable) <==> r.kind != READ_ONLY)
            && (Set(FlagsWord(e.flags), NoExec) <==> r.kind in {DATA, HEAP, STACK})
            && !Set(FlagsWord(e.flags), FromPmm) && !Set(FlagsWord(e.flags), NoCache)
  {
    hide MapPages, Lookup, InArea, Allows, FlagsWord, Set, AttrToFlags, AttrWord;
    assert Lookup(s.mem, s.cr3, r.page) == ZERO;
    RegionAttrs(r);
    MappedRights(s, r.page, r.frame, r.num, RegionAttr(r), u);
  }

  /** The state of `region_map` after success: the region has an address and frames, all its pages are
      mapped to them, and it is otherwise the same. A region that had an address keeps it, and one that
      had an address and frames keeps both; a region without either gets what was found. */
  lemma RegionMaps(s: Space, r: Region, at: nat, kernelEnd: nat)
    requires s.WF() && r.num > 0 && SmallPages(s, if r.page == 0 then at else r.page, r.num)
    requires RegionMap(s, r, at, kernelEnd).Some? && RegionMap(s, r, at, kernelEnd).value.2
    ensures var (t, m, _) := RegionMap(s, r, at, kernelEnd).value;
            && RegionMapped(t, m) && m == r.(page := m.page, frame := m.frame)
            && m.page == (if r.page == 0 then at else r.page)
            && (r.page > 0 && r.frame > 0 ==> m.frame == r.frame)
            && (r.page == 0 || r.frame == 0 ==> IsFirstFit(s.pm, r.num, 0, Some(m.frame)))
  {
    hide MapPages, Lookup, InHuge, IsPage, LeafFlags, AllInArea, TopGuarded, TablesStay, Undisturbed, OthersStay,
      Same;
    var v := if r.page == 0 then at else r.page;
    if r.page == 0 || r.frame == 0 {
      FreshMaps(s, r, v);
    } else {
      ExactMapping(s, r.frame, r.page, r.num, RegionAttr(r), kernelEnd);
      ExactPlaced(s, RegionMap(s, r, at, kernelEnd).value.0, r);
    }
  }

  /** When it succeeds: a region without frames needs as many free ones, and one with an address needs it to
      lie in the areas; a region with both passes as `vmm_map_exact` does. */
  lemma RegionMapOk(s: Space, r: Region, at: nat, kernelEnd: nat)
    requires s.pm.Valid() && r.num > 0 && RegionMap(s, r, at, kernelEnd).Some?
             && r.page + r.num <= PAGE_LIMIT && FIRST <= kernelEnd <= PAGE_LIMIT
    ensures RegionMap(s, r, at, kernelEnd).value.2 <==>
            if r.page > 0 && r.frame > 0 then
              if !Same(s, r.page, r.frame) then AddressesIn(r.page, r.num, kernelEnd)
              else r.num > 1 && AddressesIn(r.page, r.num - 1, kernelEnd)
            else (r.page == 0 || AddressesIn(r.page, r.num, kernelEnd)) && exists f: nat :: s.pm.Fits(f, r.num, 0)
  {
    hide MapPages, Lookup, AllInArea, AddressesIn, Same, Bitmap.Fits, Alloc, IsFirstFit;
    AllocExact(s.pm, r.num, 0);
    AllAreasExact(r.page, r.num, kernelEnd);
    AllAreasExact(r.page, r.num - 1, kernelEnd);
  }

  lemma FreshMaps(s: Space, r: Region, v: nat)
    requires s.WF() && r.num > 0 && SmallPages(s, v, r.num)
    requires RegionMapFresh(s, r, v).Some? && RegionMapFresh(s, r, v).value.2
    ensures var (t, m, _) := RegionMapFresh(s, r, v).value;
            RegionMapped(t, m) && m == r.(page := v, frame := m.frame) && IsFirstFit(s.pm, r.num, 0, Some(m.frame))
  {
    hide MapPages, Lookup, InHuge, IsPage, LeafFlags, TopGuarded, TablesStay, Undisturbed, OthersStay;
    AllocExact(s.pm, r.num, 0);
    var (pm, got) := Alloc(s.pm, r.num, 0);
    MarkingRun(s, got.value, r.num);
    var u := s.(pm := pm);
    MappingPages(u, v, got.value, r.num, RegionAttr(r));
    LeafPresent(RegionAttr(r));
    RangePlaced(u, MapPages(u, v, got.value, r.num, RegionAttr(r)).value, v, got.value, r.num, RegionAttr(r));
  }

  lemma LeafPresent(a: Attr)
    ensures Present in LeafFlags(a)
  {
  }

  lemma RangePlaced(s: Space, t: Space, v: nat, f: Frame, num: nat, a: Attr)
    requires t.cr3 == s.cr3 && SmallPages(s, v, num) && RangeMapped(s, t, v, f, num, LeafFlags(a))
    ensures PagesAt(t, v, f, num)
  {
    hide Lookup, InHuge, IsPage, LeafFlags;
    LeafPresent(a);
    forall u: nat | v <= u < v + num
      ensures !InHuge(t.mem, t.cr3, u) && Lookup(t.mem, t.cr3, u) != ZERO
              && Lookup(t.mem, t.cr3, u).frame == f + (u - v)
    {
      assert IsPage(u) && !InHuge(s.mem, s.cr3, u);
    }
  }

  lemma ExactPlaced(s: Space, t: Space, r: Region)
    requires t.cr3 == s.cr3 && SmallPages(s, r.page, r.num)
    requires ExactlyMapped(s, t, r.page, r.frame, r.num, LeafFlags(RegionAttr(r)))
    ensures RegionMapped(t, r)
  {
    hide Lookup, InHuge, IsPage, LeafFlags;
    LeafPresent(RegionAttr(r));
    forall u: nat | r.page <= u < r.page + r.num
      ensures !InHuge(t.mem, t.cr3, u) && Lookup(t.mem, t.cr3, u) != ZERO
              && Lookup(t.mem, t.cr3, u).frame == r.frame + (u - r.page)
    {
      assert IsPage(u) && !InHuge(s.mem, s.cr3, u);
    }
  }

  // ---- switching to a task with user regions

  /** A switch to a task whose regions are all in the user area and not yet mapped there returns 0, and
      leaves each region mapped to its frames, if there is memory for the tables. */
  lemma UserSwitch(s: Space, k: nat, v: nat, rs: seq<Region>, kernelEnd: nat)
    requires Good(s) && Activable(s, k, v) && RegionsFit(s, k, v, rs) && PagesApart(rs) && s.tasks[k].vmm != s.cr3
    requires FIRST <= kernelEnd <= PAGE_LIMIT && Switch(s, k, v, rs, kernelEnd).Looped?
    requires Activate(s, k, v).Some? && forall i :: 0 <= i < |rs| ==>
               UserPages(rs[i].page, rs[i].num) && RunUnmapped(Activate(s, k, v).value, rs[i].page, rs[i].num)
    ensures var l := Switch(s, k, v, rs, kernelEnd);
            l.ok && forall i :: 0 <= i < |rs| ==> RegionMapped(l.space, rs[i])
  {
    hide Switch, Activate, RegionsFit, PagesApart, Lookup, UserPages, AddressesIn, AllInArea, SyncReady, SlotTaken,
      PageTables.Space.NoEmptyTable, Coherent, KernelTop.Writables;
    WFPm(s);
    var a := Activate(s, k, v).value;
    forall i | 0 <= i < |rs| ensures Passes(a, rs[i], kernelEnd) {
      UserIn(rs[i].page, rs[i].num, kernelEnd);
      AllAreasExact(rs[i].page, rs[i].num, kernelEnd);
    }
    SwitchSucceeds(s, k, v, rs, kernelEnd);
    forall i | 0 <= i < |rs| ensures RegionMapped(Switch(s, k, v, rs, kernelEnd).space, rs[i]) {
      SwitchMaps(s, k, v, rs, kernelEnd, i);
    }
  }
}
