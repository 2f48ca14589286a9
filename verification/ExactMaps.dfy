/** Mapping given frames at given pages (kernel/mm/vmm.c, `vmm_map_exact`) as a function on the value
    of memory. */
module ExactMaps {
  import opened PageBitmap
  import opened PageTables
  import opened PageSteps
  import opened PageMap
  import opened PageRefinement
  import opened PageRanges

  /** `vmm_vma_does_contain`, for pages and with the page where the kernel image starts. */
  predicate InArea(u: nat, kernelEnd: nat) {
    (0x8_0000_0000 <= u < kernelEnd) || (1 <= u && u * PAGE_SIZE < 0x7fff_ffff_ffff)
  }

  /** All pages of the range lie in an area. */
  predicate AllInArea(v: nat, num: nat, kernelEnd: nat) { forall u: nat :: v <= u < v + num ==> InArea(u, kernelEnd) }

  /** The page is mapped to the frame already. */
  predicate Same(s: Space, v: nat, f: Frame) { Lookup(s.mem, s.cr3, v) != ZERO && Lookup(s.mem, s.cr3, v).frame == f }

  /** When the checks pass. A first page that already has its frame makes the count of pages shrink while
      the loop still counts up: the last page is then not checked, a single page is refused if pages may
      be reused, and only a single page passes if they may not. */
  predicate ExactPasses(s: Space, f: Frame, v: nat, num: nat, attr: Attr, kernelEnd: nat) {
    if num == 0 then true
    else if Same(s, v, f) && attr.reuse then num > 1 && AllInArea(v, num - 1, kernelEnd)
    else if Same(s, v, f) then num == 1 && InArea(v, kernelEnd)
    else AllInArea(v, num, kernelEnd)
         && (attr.reuse || forall u: nat :: v <= u < v + num ==> Lookup(s.mem, s.cr3, u) == ZERO)
  }

  /** Done, refused by the checks, or without memory for a table, which the kernel does not check. */
  datatype MapResult = Done(space: Space) | Refused | Starved

  /** Pages to skip: the first one, if it has its frame. */
  function Skip(s: Space, f: Frame, v: nat, num: nat): (k: nat)
    ensures k <= num
  {
    if num > 0 && Same(s, v, f) then 1 else 0
  }

  function ExactMap(s: Space, f: Frame, v: nat, num: nat, attr: Attr, kernelEnd: nat): (r: MapResult)
    requires s.pm.Valid()
    ensures r.Done? ==> r.space.pm.Valid()
  {
    if !ExactPasses(s, f, v, num, attr, kernelEnd) then Refused
    else
      var k := Skip(s, f, v, num);
      match MapPages(s, v + k, f + k, num - k, attr)
      case None => Starved
      case Some(t) => Done(t)
  }

  /** The entry of page `u`, which was `e`, after pages from `v` on were mapped to frames from `f` on. */
  function Placed(e: Entry, v: nat, f: Frame, num: nat, flags: set<Flag>, u: nat): Entry {
    if !(v <= u < v + num) then e
    else if u == v && e != ZERO && e.frame == f then e
    else Entry(f + (u - v), flags)
  }

  /** Every page of the loaded address space has the entry that `Placed` says. */
  ghost predicate ExactlyMapped(s: Space, t: Space, v: nat, f: Frame, num: nat, flags: set<Flag>) {
    forall u: nat :: IsPage(u) ==>
      && Lookup(t.mem, s.cr3, u) == Placed(Lookup(s.mem, s.cr3, u), v, f, num, flags, u)
      && InHuge(t.mem, s.cr3, u) == InHuge(s.mem, s.cr3, u)
  }

  /** What mapping at exact places does: the pages of the range have their frames, all other pages keep
      their entries, and the rest is as after any mapping. */
  lemma ExactMapping(s: Space, f: Frame, v: nat, num: nat, attr: Attr, kernelEnd: nat)
    requires s.WF() && SmallPages(s, v, num) && ExactMap(s, f, v, num, attr, kernelEnd).Done?
    ensures var t := ExactMap(s, f, v, num, attr, kernelEnd).space;
            && Follows(s, t) && TablesStay(s, t) && TopGuarded(s, t) && Undisturbed(s, t)
            && (s.NoEmptyTable() ==> t.NoEmptyTable())
            && ExactlyMapped(s, t, v, f, num, LeafFlags(attr))
  {
    hide MapPages, Lookup, InHuge, IsPage, LeafFlags, TopGuarded, TablesStay, Undisturbed, Follows;
    var k := Skip(s, f, v, num);
    MappingPages(s, v + k, f + k, num - k, attr);
  }

  /** With reuse, when such a request is refused. */
  lemma ExactRefused(s: Space, f: Frame, v: nat, num: nat, attr: Attr, kernelEnd: nat)
    requires s.pm.Valid() && attr.reuse
    ensures ExactMap(s, f, v, num, attr, kernelEnd).Refused? <==>
            num > 0 && if Same(s, v, f) then num == 1
                || !AllInArea(v, num - 1, kernelEnd) else !AllInArea(v, num, kernelEnd)
  {
    hide MapPages, Lookup, AllInArea;
  }

  /** In particular a single page that is mapped to its frame is refused, although nothing is left to do. */
  lemma OnePageRefused(s: Space, f: Frame, v: nat, attr: Attr, kernelEnd: nat)
    requires s.pm.Valid() && attr.reuse && Same(s, v, f)
    ensures ExactMap(s, f, v, 1, attr, kernelEnd) == Refused
  {
    hide MapPages, Lookup;
  }
}
