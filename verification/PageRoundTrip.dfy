/** Mapping a range and unmapping it again gives back every frame that was taken. */
module PageRoundTrip {
  import opened Lists
  import opened PageBitmap
  import opened PageTables
  import opened PageSteps
  import opened PageMap
  import opened PageRefinement
  import opened PageRanges
  import opened PageOwnership

  /** The frames `[f, f + num)`. */
  function FrameRange(f: Frame, num: nat): (r: set<Frame>)
    ensures forall g: nat :: g in r <==> f <= g < f + num
    decreases num
  {
    if num == 0 then {} else {f} + FrameRange(f + 1, num - 1)
  }

  lemma {:induction false} CountFrames(f: Frame, num: nat)
    ensures |FrameRange(f, num)| == num
    decreases num
  {
    if num > 0 { CountFrames(f + 1, num - 1); }
  }

  /** No page of the range owns its frame. */
  ghost predicate NoOwner(s: Space, v: nat, num: nat) {
    forall u: nat :: v <= u < v + num ==> FromPmm !in Lookup(s.mem, s.cr3, u).flags
  }

  /** The frames that pages take from their holders when they are mapped from `f` on. */
  function TakenFrames(f: Frame, num: nat, attr: Attr): set<Frame> { if attr.save then {} else FrameRange(f, num) }

  /** Mapping a range moves its frames from the holders to the pages, unless the caller keeps them;
      frames that the pages owned before are left to the holders. */
  lemma {:induction false} OwnMapPages(s: Space, v: nat, f: Frame, num: nat, attr: Attr, held: set<Frame>)
    requires s.WF() && Owned(s, held) && SmallPages(s, v, num)
    requires MapPages(s, v, f, num, attr).Some? && (attr.save || FrameRange(f, num) <= held)
    ensures Owned(MapPages(s, v, f, num, attr).value, held + OwnedBy(s, v, num) - TakenFrames(f, num, attr))
    ensures OwnedBy(s, v, num) !! held
    decreases num
  {
    hide MapOne, Owned, OwnedBy;
    OwnedByApart(s, v, num, held);
    if num == 0 {
      assert held + OwnedBy(s, v, num) - TakenFrames(f, num, attr) == held by { OwnedByNone(s, v); }
    } else {
      var t, e := MapOne(s, v, f, attr).value, Entry(f, LeafFlags(attr));
      OwnMapOne(s, v, f, attr, held);
      MappingOne(s, v, f, attr);
      SmallPagesNext(s, t, v, num, e);
      OtherPages(s, t, v, num, num - 1, e);
      OwnedBySplit(s, v, num);
      var held' := held + OwnedFrame(Lookup(s.mem, s.cr3, v)) - TakenFrame(f, attr);
      OwnMapPages(t, v + 1, f + 1, num - 1, attr, held');
      assert attr.save || f !in OwnedBy(s, v + 1, num - 1);
      assert held' + OwnedBy(s, v + 1, num - 1) - TakenFrames(f + 1, num - 1, attr)
             == held + OwnedBy(s, v, num) - TakenFrames(f, num, attr);
    }
  }

  lemma OwnedByNone(s: Space, v: nat)
    ensures OwnedBy(s, v, 0) == {}
  {
  }

  /** What pages own nobody else holds. */
  lemma OwnedByApart(s: Space, v: nat, num: nat, held: set<Frame>)
    requires s.WF() && Owned(s, held) && SmallPages(s, v, num)
    ensures OwnedBy(s, v, num) !! held
  {
    forall u: nat | v <= u < v + num && FromPmm in Lookup(s.mem, s.cr3, u).flags
      ensures Lookup(s.mem, s.cr3, u).frame !in held
    {
      PathInTree(s, u);
      assert IsLeaf(s, N3(s.cr3, u), I1(u));
      assert IsLeafFrame(s, Lookup(s.mem, s.cr3, u).frame);
    }
  }

  /** No page of the range owns a frame. */
  lemma NoOwnerNone(s: Space, v: nat, num: nat)
    ensures NoOwner(s, v, num) <==> OwnedBy(s, v, num) == {}
  {
    hide Lookup;
    if OwnedBy(s, v, num) == {} {
      forall u: nat | v <= u < v + num ensures FromPmm !in Lookup(s.mem, s.cr3, u).flags {
        assert FromPmm in Lookup(s.mem, s.cr3, u).flags ==> Lookup(s.mem, s.cr3, u).frame in OwnedBy(s, v, num);
      }
    }
  }

  lemma OtherPages(s: Space, t: Space, v: nat, num: nat, k: nat, e: Entry)
    requires t.cr3 == s.cr3 && num > 0 && SmallPages(s, v, num) && MapUpdated(s, t, v, e)
    ensures k < num ==> OwnedBy(t, v + 1, k) == OwnedBy(s, v + 1, k)
    ensures AllMapped(s, v, num) ==> AllMapped(t, v + 1, num - 1)
    ensures Leading(t, v + 1, num - 1) == Leading(s, v + 1, num - 1)
  {
    forall u: nat | v + 1 <= u < v + num ensures Lookup(t.mem, t.cr3, u) == Lookup(s.mem, s.cr3, u) {
      hide I4, I3, I2, I1, Lookup, InHuge;
      assert IsPage(u);
    }
    LeadingSame(s, t, v + 1, num - 1);
  }

  /** The number of mapped pages at the start of a range. */
  function Leading(s: Space, v: nat, num: nat): (k: nat)
    ensures k <= num
    decreases num
  {
    if num == 0 || Lookup(s.mem, s.cr3, v) == ZERO then 0 else 1 + Leading(s, v + 1, num - 1)
  }

  lemma {:induction false} LeadingSame(s: Space, t: Space, v: nat, num: nat)
    requires forall u: nat :: v <= u < v + num ==> Lookup(t.mem, t.cr3, u) == Lookup(s.mem, s.cr3, u)
    ensures Leading(t, v, num) == Leading(s, v, num)
    decreases num
  {
    if num > 0 {
      assert Lookup(t.mem, t.cr3, v) == Lookup(s.mem, s.cr3, v);
      LeadingSame(s, t, v + 1, num - 1);
    }
  }

  lemma {:induction false} LeadingAll(s: Space, v: nat, num: nat)
    ensures Leading(s, v, num) == num <==> AllMapped(s, v, num)
    decreases num
  {
    if num > 0 && Lookup(s.mem, s.cr3, v) != ZERO { LeadingAll(s, v + 1, num - 1); }
  }

  /** Ownership makes unmapping safe. */
  lemma OwnedFreeSafe(s: Space, v: nat, num: nat, save: bool, held: set<Frame>)
    requires s.WF() && Owned(s, held) && SmallPages(s, v, num)
    ensures FreeSafe(s, v, num, save)
  {
    forall u: nat | v <= u < v + num ensures FreeSafeAt(s, u, save) {
      PathInTree(s, u);
      var e := Lookup(s.mem, s.cr3, u);
      if FromPmm in e.flags {
        assert IsLeaf(s, N3(s.cr3, u), I1(u));
        assert !IsTab(s, e.frame);
      }
    }
  }

  /** Frames that pages `[v, v + num)` own. */
  function OwnedBy(s: Space, v: nat, num: nat): set<Frame> {
    set u: nat | v <= u < v + num && FromPmm in Lookup(s.mem, s.cr3, u).flags :: Lookup(s.mem, s.cr3, u).frame
  }

  ghost predicate AllMapped(s: Space, v: nat, num: nat) {
    forall u: nat :: v <= u < v + num ==> Lookup(s.mem, s.cr3, u) != ZERO
  }

  /** Unmapping a range: the pages up to the first that is not mapped go, and what they owned is freed
      or handed to the caller. It succeeds exactly if they are all mapped. */
  lemma {:induction false} OwnUnmapPages(s: Space, v: nat, num: nat, save: bool, held: set<Frame>)
    requires s.WF() && s.NoEmptyTable() && Owned(s, held) && SmallPages(s, v, num)
    ensures UnmapPages(s, v, num, save).1 <==> AllMapped(s, v, num)
    ensures Owned(UnmapPages(s, v, num, save).0, if save then held + OwnedBy(s, v, Leading(s, v, num)) else held)
    decreases num
  {
    hide UnmapOne, Owned, PageTables.Space.WF, OwnedBy;
    OwnedByNone(s, v);
    LeadingAll(s, v, num);
    assert held + {} == held;
    if num > 0 && Lookup(s.mem, s.cr3, v) != ZERO {
      var (t, ok) := UnmapOne(s, v, save);
      OwnUnmapOne(s, v, save, held);
      UnmappingOne(s, v, save);
      SmallPagesNext(s, t, v, num, ZERO);
      var held', k := HeldAfter(s, v, save, held), Leading(s, v + 1, num - 1);
      OtherPages(s, t, v, num, k, ZERO);
      OwnUnmapPages(t, v + 1, num - 1, save, held');
      LeadingAll(t, v + 1, num - 1);
      OwnedBySplit(s, v, k + 1);
      assert save ==> held' + OwnedBy(s, v + 1, k) == held + OwnedBy(s, v, k + 1);
    } else if num > 0 {
      UnmapNothing(s, v, save);
    }
  }

  lemma UnmapNothing(s: Space, v: nat, save: bool)
    requires Lookup(s.mem, s.cr3, v) == ZERO
    ensures UnmapOne(s, v, save) == (s, false)
  {
  }

  lemma OwnedBySplit(s: Space, v: nat, num: nat)
    requires num > 0
    ensures OwnedBy(s, v, num) ==
              OwnedBy(s, v + 1, num - 1)
              + OwnedFrame(Lookup(s.mem, s.cr3, v))
  {
    hide Lookup;
  }

  // ---- mapping and unmapping again

  /** A page entry is the translation of the page it belongs to. */
  lemma LeafSlotsFromMap(s: Space, t: Space, n: Node, i: nat)
    requires s.WF() && t.WF() && SameRoots(s, t) && SameMap(s, t) && OthersStay(s, t)
    requires s.HasSlot(n, i) && n.Depth() == 3
    ensures Slot(t.mem, n, i) == Slot(s.mem, n, i)
  {
    if n.Root() == s.cr3 {
      hide PageTables.Space.WF, I4, I3, I2, I1, IsPage;
      assert s.InTree(n) && n.Sub? && i < PTE_COUNT;
      var v := NodeOfPage(s, n, i, 0);
      assert n == N3(s.cr3, v) && I1(v) == i;
      assert Lookup(t.mem, s.cr3, v) == Lookup(s.mem, s.cr3, v);
      if InHuge(s.mem, s.cr3, v) {
        assert Table(s.mem, n) == None && Table(t.mem, n) == None;
      }
    }
  }

  /** The flat map determines which tables exist. */
  lemma TablesFromMap(s: Space, t: Space, n: Node)
    requires s.WF() && t.WF() && SameRoots(s, t) && SameMap(s, t) && OthersStay(s, t) && s.InTree(n)
    requires s.NoEmptyTable() && t.NoEmptyTable()
    ensures Table(s.mem, n).Some? == Table(t.mem, n).Some?
  {
    SameTree(s, t);
    if n.Sub? && n.Root() == s.cr3 {
      if Table(s.mem, n).Some? { NeededInOther(s, t, n); }
      if Table(t.mem, n).Some? { NeededInOther(t, s, n); }
    } else if n.Sub? {
      UnfoldNode(s, n);
    }
  }

  /** Pages that were mapped are mapped. */
  ghost predicate StillMapped(s: Space, t: Space) {
    forall u: nat :: IsPage(u) && Lookup(s.mem, s.cr3, u) != ZERO ==>
      Lookup(t.mem, s.cr3, u) != ZERO && InHuge(t.mem, s.cr3, u) == InHuge(s.mem, s.cr3, u)
  }

  lemma NeededInOther(s: Space, t: Space, n: Node)
    requires s.WF() && t.WF() && t.cr3 == s.cr3 && StillMapped(s, t) && s.InTree(n) && t.InTree(n)
    requires s.NoEmptyTable() && t.NoEmptyTable() && n.Sub? && n.Root() == s.cr3 && Table(s.mem, n).Some?
    ensures Table(t.mem, n).Some?
  {
    ShapeIsMinimal(s, n);
    ShapeIsMinimal(t, n);
    hide I4, I3, I2, I1, IsPage, PageTables.Space.WF;
    var v :| Through(s, n, v);
    assert Through(t, n, v);
    UnfoldNode(s, n);
    if n.Depth() == 3 {
      assert n == N3(s.cr3, v) by { DepthOfPath(s, n, v); }
      assert !InHuge(s.mem, s.cr3, v);
    }
  }

  lemma DepthOfPath(s: Space, n: Node, v: nat)
    requires OnPath(s, n, v) && n.Depth() == 3
    ensures n == N3(s.cr3, v)
  {
    assert N1(s.cr3, v).Depth() == 1;
    assert N2(s.cr3, v).Depth() == 2;
  }

  lemma SameMapRoundTrip(s: Space, t: Space, w: Space, v: nat, f: Frame, num: nat, flags: set<Flag>)
    requires t.cr3 == s.cr3 && RangeMapped(s, t, v, f, num, flags) && RangeUnmapped(t, w, v, num)
    requires forall u: nat :: v <= u < v + num ==> Lookup(s.mem, s.cr3, u) == ZERO
    ensures SameMap(s, w)
  {
    hide Lookup, InHuge, IsPage;
  }

  /** Mapping an unmapped range and unmapping it again: every translation is as before, every
      table is in the frame it was in and no other table is left, and the allocator's bitmap is
      as before, except that frames which the pages owned are free if they were not saved. */
  lemma MapUnmapRestores(s: Space, v: nat, f: Frame, num: nat, attr: Attr, save: bool, held: set<Frame>)
    requires s.WF() && s.NoEmptyTable() && Owned(s, held) && SmallPages(s, v, num)
    requires forall u: nat :: v <= u < v + num ==> Lookup(s.mem, s.cr3, u) == ZERO
    requires MapPages(s, v, f, num, attr).Some? && (attr.save || FrameRange(f, num) <= held)
    ensures var (w, ok) := UnmapPages(MapPages(s, v, f, num, attr).value, v, num, save);
            && ok && Follows(s, w) && SameMap(s, w)
            && (forall n :: s.InTree(n) ==> Table(w.mem, n) == Table(s.mem, n))
            && (forall g: nat :: s.pm.Covers(g) ==>
                  (w.pm.IsUsed(g) <==> s.pm.IsUsed(g) && !(f <= g < f + num && !attr.save && !save)))
  {
    hide MapPages, UnmapPages, Owned, I4, I3, I2, I1;
    var t := MapPages(s, v, f, num, attr).value;
    MappingPages(s, v, f, num, attr);
    OwnMapPages(s, v, f, num, attr, held);
    assert NoOwner(s, v, num);
    NoOwnerNone(s, v, num);
    var held1 := if attr.save then held else held - FrameRange(f, num);
    assert held + {} - TakenFrames(f, num, attr) == held1;
    LeadingAll(t, v, num);
    assert SmallPages(t, v, num);
    assert AllMapped(t, v, num);
    OwnedFreeSafe(t, v, num, save, held1);
    OwnUnmapPages(t, v, num, save, held1);
    var k := UnmappingPages(t, v, num, save);
    var (w, ok) := UnmapPages(t, v, num, save);
    SameMapRoundTrip(s, t, w, v, f, num, LeafFlags(attr));
    FollowsTrans(s, t, w);
    RestoredTables(s, t, w);
    OwnedByRange(s, t, v, f, num, attr);
    var held2 := if save then held1 + OwnedBy(t, v, num) else held1;
    RestoredUse(s, w, held, held2);
  }

  lemma OwnedByRange(s: Space, t: Space, v: nat, f: Frame, num: nat, attr: Attr)
    requires t.cr3 == s.cr3 && SmallPages(s, v, num) && RangeMapped(s, t, v, f, num, LeafFlags(attr))
    ensures OwnedBy(t, v, num) == if attr.save then {} else FrameRange(f, num)
  {
    forall u: nat | v <= u < v + num ensures Lookup(t.mem, t.cr3, u) == Entry(f + (u - v), LeafFlags(attr)) {
      hide Lookup, InHuge, I4, I3, I2, I1;
      assert IsPage(u);
    }
    hide Lookup, LeafFlags;
    if !attr.save {
      forall g: nat | f <= g < f + num ensures g in OwnedBy(t, v, num) {
        var u: nat := v + (g - f);
        assert Lookup(t.mem, t.cr3, u).frame == g;
      }
    }
  }

  lemma RestoredTables(s: Space, t: Space, w: Space)
    requires s.WF() && s.NoEmptyTable() && w.NoEmptyTable() && Follows(s, t) && Follows(t, w) && Follows(s, w)
    requires TablesStay(s, t) && TablesStay(w, t) && SameMap(s, w)
    ensures forall n :: s.InTree(n) ==> Table(w.mem, n) == Table(s.mem, n)
  {
    FollowsRoots(s, w);
    FollowsRoots(s, t);
    SameTree(s, w);
    SameTree(s, t);
    forall n | s.InTree(n) ensures Table(w.mem, n) == Table(s.mem, n) {
      TablesFromMap(s, w, n);
    }
  }

  /** Tables that pages need stay where they are while others come (`t`) and go. */
  lemma TablesBack(s: Space, t: Space, w: Space)
    requires s.WF() && s.NoEmptyTable() && w.NoEmptyTable() && Follows(s, t) && Follows(t, w) && Follows(s, w)
    requires TablesStay(s, t) && TablesStay(w, t) && StillMapped(s, w)
    ensures TablesStay(s, w)
  {
    FollowsRoots(s, w);
    FollowsRoots(s, t);
    SameTree(s, w);
    SameTree(s, t);
    forall n | s.InTree(n) && Table(s.mem, n).Some? ensures Table(w.mem, n) == Table(s.mem, n) {
      if n.Sub? && n.Root() == s.cr3 {
        NeededInOther(s, w, n);
        assert w.InTree(n) && Table(t.mem, n) == Table(w.mem, n);
      } else if n.Sub? {
        UnfoldNode(s, n);
      }
    }
  }

  /** With the same tables and pages, allocation can only differ in what the holders hold. */
  lemma RestoredUse(s: Space, w: Space, held: set<Frame>, held': set<Frame>)
    requires s.WF() && Follows(s, w) && SameMap(s, w) && Owned(s, held) && Owned(w, held')
    requires forall n :: s.InTree(n) ==> Table(w.mem, n) == Table(s.mem, n)
    ensures forall g: nat :: s.pm.Covers(g) && (g in held <==> g in held') ==> w.pm.IsUsed(g) == s.pm.IsUsed(g)
    ensures forall g: nat :: g in held && g !in held' ==> s.pm.IsUsed(g) && !w.pm.IsUsed(g)
  {
    FollowsRoots(s, w);
    forall n, i: nat | s.HasSlot(n, i) && n.Depth() == 3 ensures Slot(w.mem, n, i) == Slot(s.mem, n, i) {
      LeafSlotsFromMap(s, w, n, i);
    }
    forall g: nat ensures IsTab(w, g) == IsTab(s, g) && IsLeafFrame(w, g) == IsLeafFrame(s, g) {
      SameRoles(s, w, g);
    }
  }
}
