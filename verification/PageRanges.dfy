/** Ranges of pages: what mapping and unmapping them does to every translation, and why the tree
    of tables always has the smallest possible shape. */
module PageRanges {
  import opened PageBitmap
  import opened PageTables
  import opened PageSteps
  import opened PageMap
  import opened PageRefinement

  /** The pages exist, lie outside the window and are not covered by 2 MiB pages. */
  ghost predicate SmallPages(s: Space, v: nat, num: nat) {
    forall u: nat :: v <= u < v + num ==> IsPage(u) && !InHuge(s.mem, s.cr3, u)
  }

  /** Physical address that a virtual address translates to, 0 if none (`vmm_resolve`). */
  function Resolve(s: Space, vaddr: nat): nat {
    var e := Lookup(s.mem, s.cr3, vaddr / PAGE_SIZE % PAGE_LIMIT);
    if e == ZERO then 0
    else if Huge in e.flags then e.frame * PAGE_SIZE + vaddr % 0x20_0000
    else e.frame * PAGE_SIZE + vaddr % PAGE_SIZE
  }

  /** From `s` to `t`, pages `[v, v + num)` were given frames from `f` on and all others kept. */
  ghost predicate RangeMapped(s: Space, t: Space, v: nat, f: Frame, num: nat, flags: set<Flag>) {
    forall u: nat :: IsPage(u) ==>
      && Lookup(t.mem, s.cr3, u) == (if v <= u < v + num then Entry(f + (u - v), flags) else Lookup(s.mem, s.cr3, u))
      && InHuge(t.mem, s.cr3, u) == InHuge(s.mem, s.cr3, u)
  }

  lemma RangeMappedStep(s: Space, t: Space, w: Space, v: nat, f: Frame, num: nat, flags: set<Flag>)
    requires t.cr3 == s.cr3 && num > 0
    requires MapUpdated(s, t, v, Entry(f, flags)) && RangeMapped(t, w, v + 1, f + 1, num - 1, flags)
    ensures RangeMapped(s, w, v, f, num, flags)
  {
  }

  /** Mapping a range: each page of the range gets its own frame and flags, every other page keeps
      its entry, no table moves, no table is left empty. */
  lemma {:induction false} MappingPages(s: Space, v: nat, f: Frame, num: nat, attr: Attr)
    requires s.WF() && SmallPages(s, v, num) && MapPages(s, v, f, num, attr).Some?
    ensures var t := MapPages(s, v, f, num, attr).value;
            && Follows(s, t) && TablesStay(s, t) && TopGuarded(s, t) && Undisturbed(s, t)
            && (s.NoEmptyTable() ==> t.NoEmptyTable())
            && RangeMapped(s, t, v, f, num, LeafFlags(attr))
    decreases num
  {
    hide MapOne, Undisturbed;
    UndisturbedSelf(s);
    if num > 0 {
      var t := MapOne(s, v, f, attr).value;
      MappingOne(s, v, f, attr);
      SmallPagesNext(s, t, v, num, Entry(f, LeafFlags(attr)));
      MappingPages(t, v + 1, f + 1, num - 1, attr);
      var w := MapPages(s, v, f, num, attr).value;
      FollowsTrans(s, t, w);
      StayTrans(s, t, w);
      GuardTrans(s, t, w);
      UndisturbedTrans(s, t, w);
      RangeMappedStep(s, t, w, v, f, num, LeafFlags(attr));
    }
  }

  lemma SmallPagesNext(s: Space, t: Space, v: nat, num: nat, e: Entry)
    requires t.cr3 == s.cr3 && num > 0 && SmallPages(s, v, num) && MapUpdated(s, t, v, e)
    ensures SmallPages(t, v + 1, num - 1)
  {
  }

  /** The same as a statement about addresses. */
  lemma MappedAddresses(s: Space, v: nat, f: Frame, num: nat, attr: Attr, k: nat, o: nat)
    requires s.WF() && SmallPages(s, v, num) && MapPages(s, v, f, num, attr).Some?
    requires k < num && o < PAGE_SIZE
    ensures Resolve(MapPages(s, v, f, num, attr).value, (v + k) * PAGE_SIZE + o) == (f + k) * PAGE_SIZE + o
  {
    hide MapPages, OthersStay, TopGuarded, TablesStay, Undisturbed, I4, I3, I2, I1;
    var t := MapPages(s, v, f, num, attr).value;
    MappingPages(s, v, f, num, attr);
    assert ((v + k) * PAGE_SIZE + o) / PAGE_SIZE == v + k;
    assert IsPage(v + k);
    assert Lookup(t.mem, s.cr3, v + k) == Entry(f + k, LeafFlags(attr));
  }

  /** Frames of the range that unmapping would give back hold no table. */
  ghost predicate FreeSafe(s: Space, v: nat, num: nat, save: bool) {
    forall u: nat :: v <= u < v + num ==> FreeSafeAt(s, u, save)
  }

  ghost predicate RangeUnmapped(s: Space, t: Space, v: nat, k: nat) {
    forall u: nat :: IsPage(u) ==>
      && Lookup(t.mem, s.cr3, u) == (if v <= u < v + k then ZERO else Lookup(s.mem, s.cr3, u))
      && InHuge(t.mem, s.cr3, u) == InHuge(s.mem, s.cr3, u)
  }

  lemma RangeUnmappedStep(s: Space, t: Space, w: Space, v: nat, k: nat)
    requires t.cr3 == s.cr3 && MapUpdated(s, t, v, ZERO) && RangeUnmapped(t, w, v + 1, k)
    ensures RangeUnmapped(s, w, v, k + 1)
  {
  }

  lemma FreeSafeNext(s: Space, t: Space, v: nat, num: nat, save: bool)
    requires num > 0 && Follows(s, t) && TablesStay(t, s) && SmallPages(s, v, num) && FreeSafe(s, v, num, save)
    requires MapUpdated(s, t, v, ZERO)
    ensures FreeSafe(t, v + 1, num - 1, save)
  {
    FollowsRoots(s, t);
    SameTree(s, t);
    forall u: nat | v + 1 <= u < v + num ensures FreeSafeAt(t, u, save) {
      hide I4, I3, I2, I1;
      assert IsPage(u) && FreeSafeAt(s, u, save);
    }
  }

  /** Unmapping a range: the first `k` pages lose their entries, every other page keeps it. The
      call succeeds exactly when `k` is the whole range, and otherwise stopped at a page that was
      not mapped or whose frame was not allocated. */
  lemma {:induction false} UnmappingPages(s: Space, v: nat, num: nat, save: bool) returns (k: nat)
    requires s.WF() && s.NoEmptyTable() && SmallPages(s, v, num) && FreeSafe(s, v, num, save)
    ensures var (t, ok) := UnmapPages(s, v, num, save);
            && Follows(s, t) && TablesStay(t, s) && TopGuarded(s, t) && t.NoEmptyTable()
            && (save ==> Undisturbed(s, t))
            && k <= num && (ok <==> k == num)
            && (forall u: nat :: v <= u < v + k ==> Lookup(s.mem, s.cr3, u) != ZERO)
            && (!ok ==> var e := Lookup(s.mem, s.cr3, v + k);
                        e == ZERO || (FromPmm in e.flags && !save && !t.pm.IsUsed(e.frame)))
            && RangeUnmapped(s, t, v, k)
    decreases num
  {
    hide UnmapOne, PageTables.Space.WF, FreeSafeAt, Undisturbed;
    UndisturbedSelf(s);
    if num == 0 {
      k := 0;
    } else {
      UnmappingOne(s, v, save);
      var (t, ok) := UnmapOne(s, v, save);
      if ok {
        SmallPagesNext(s, t, v, num, ZERO);
        FreeSafeNext(s, t, v, num, save);
        var k' := UnmappingPages(t, v + 1, num - 1, save);
        k := k' + 1;
        var (w, _) := UnmapPages(s, v, num, save);
        FollowsTrans(s, t, w);
        GoneTrans(s, t, w);
        GuardTrans(s, t, w);
        if save { UndisturbedTrans(s, t, w); }
        RangeUnmappedStep(s, t, w, v, k');
      } else {
        k := 0;
      }
    }
  }

  // ---- the shape of the tree

  /** The page with the given indices. */
  function PageAt(i4: nat, i3: nat, i2: nat, i1: nat): nat {
    i4 * 0x800_0000 + i3 * 0x4_0000 + i2 * 0x200 + i1
  }

  lemma PageAtIndices(i4: nat, i3: nat, i2: nat, i1: nat)
    requires i4 < 512 && i3 < 512 && i2 < 512 && i1 < 512
    ensures var v := PageAt(i4, i3, i2, i1);
            v < PAGE_LIMIT && I4(v) == i4 && I3(v) == i3 && I2(v) == i2 && I1(v) == i1
  {
    var v := PageAt(i4, i3, i2, i1);
    assert v / 0x200 == i4 * 0x4_0000 + i3 * 0x200 + i2;
    assert v / 0x4_0000 == i4 * 0x200 + i3;
    assert v / 0x800_0000 == i4;
  }

  /** Page `v` is mapped through the table named by `n`. */
  ghost predicate Through(s: Space, n: Node, v: nat) {
    IsPage(v) && OnPath(s, n, v) && Lookup(s.mem, s.cr3, v) != ZERO
  }

  /** A table of the loaded address space exists exactly where a mapped page needs it. */
  lemma ShapeIsMinimal(s: Space, n: Node)
    requires s.WF() && s.NoEmptyTable() && s.InTree(n) && n.Sub? && n.Root() == s.cr3
    ensures Table(s.mem, n).Some? ==> exists v :: Through(s, n, v)
    ensures forall v: nat :: Through(s, n, v) && (n.Depth() < 3 || !InHuge(s.mem, s.cr3, v)) ==> Table(s.mem, n).Some?
  {
    if Table(s.mem, n).Some? {
      var v := NeededBy(s, n);
    }
    forall v: nat | Through(s, n, v) && (n.Depth() < 3 || !InHuge(s.mem, s.cr3, v)) ensures Table(s.mem, n).Some? {
      PathInTree(s, v);
      assert n == N3(s.cr3, v) || Slot(s.mem, N2(s.cr3, v), I2(v)) != ZERO;
    }
  }

  /** A node of the loaded address space is the `N1`, `N2` or `N3` of any page with its indices. */
  lemma NodeOfPage(s: Space, n: Node, i: nat, j: nat) returns (v: nat)
    requires s.InTree(n) && n.Sub? && n.Root() == s.cr3 && i < PTE_COUNT && j < PTE_COUNT
    ensures IsPage(v)
    ensures match n.Depth()
            case 1 => n == N1(s.cr3, v) && I3(v) == i && I2(v) == j
            case 2 => n == N2(s.cr3, v) && I2(v) == i && I1(v) == j
            case _ => n == N3(s.cr3, v) && I1(v) == i
  {
    UnfoldNode(s, n);
    if n.parent.Top? {
      PageAtIndices(n.index, i, j, 0);
      v := PageAt(n.index, i, j, 0);
    } else if n.parent.parent.Top? {
      UnfoldNode(s, n.parent);
      PageAtIndices(n.parent.index, n.index, i, j);
      v := PageAt(n.parent.index, n.index, i, j);
    } else {
      UnfoldNode(s, n.parent);
      UnfoldNode(s, n.parent.parent);
      assert n.parent.parent.parent.Top?;
      PageAtIndices(n.parent.parent.index, n.parent.index, n.index, i);
      v := PageAt(n.parent.parent.index, n.parent.index, n.index, i);
    }
  }

  lemma UnfoldNode(s: Space, n: Node)
    requires s.InTree(n) && n.Sub?
    ensures s.InTree(n.parent) && s.HasSlot(n.parent, n.index) && n.index < PTE_COUNT
    ensures n.parent.Top? ==> n.index != WINDOW
    ensures n.Depth() == n.parent.Depth() + 1 <= 3 && n.Root() == n.parent.Root()
  {
  }

  lemma {:induction false} NeededBy(s: Space, n: Node) returns (v: nat)
    requires s.WF() && s.NoEmptyTable() && s.InTree(n) && n.Sub? && n.Root() == s.cr3 && Table(s.mem, n).Some?
    ensures Through(s, n, v)
    decreases 3 - n.Depth()
  {
    hide IsPage, I4, I3, I2, I1;
    NotBelowLeaf(s, n, Sub(Sub(Sub(Sub(Top(0), 0), 0), 0), 0));
    var j :| 0 <= j < PTE_COUNT && Slot(s.mem, n, j) != ZERO;
    assert s.HasSlot(n, j);
    if n.Depth() == 3 {
      v := NodeOfPage(s, n, j, 0);
    } else if n.Depth() == 2 && Huge in Slot(s.mem, n, j).flags {
      v := NodeOfPage(s, n, j, 0);
    } else {
      v := NeededBy(s, Sub(n, j));
    }
  }
}
