/** What mapping and unmapping do to the kernel half of the loaded PML4: entries that are there stay as
    they are, and what is mapped and unmapped again leaves no trace. */
module KernelTop {
  import opened Lists
  import opened PageBitmap
  import opened PageTables
  import opened PageSteps
  import opened PageMap
  import opened PageRefinement
  import opened PageRanges
  import opened PageSync
  import opened KernelPages

  /** A slot of the kernel half, other than the window. */
  predicate KernelSlot(j: nat) { KERNEL_SLOT <= j < PTE_COUNT && j != WINDOW }

  /** Every kernel entry of the loaded PML4 has the flags that the kernel gives to all of them. */
  ghost predicate Writables(s: Space) {
    forall j: nat :: KernelSlot(j) && Word(s.mem, s.cr3, j) != ZERO ==>
            {Present, Writable} <= Word(s.mem, s.cr3, j).flags
  }

  /** Kernel entries that are there stay as they are. */
  ghost predicate OnlyGrows(s: Space, t: Space) {
    forall j: nat :: KernelSlot(j) && Word(s.mem, s.cr3, j) != ZERO ==> Word(t.mem, s.cr3, j) == Word(s.mem, s.cr3, j)
  }

  /** Kernel entries stay as they are or go. */
  ghost predicate OnlyShrinks(s: Space, t: Space) {
    forall j: nat :: KernelSlot(j) ==> Word(t.mem, s.cr3, j) == Word(s.mem, s.cr3, j) || Word(t.mem, s.cr3, j) == ZERO
  }

  /** The kernel half of the loaded PML4 is the same. */
  ghost predicate Fixed(s: Space, t: Space) {
    forall j: nat :: KernelSlot(j) ==> Word(t.mem, s.cr3, j) == Word(s.mem, s.cr3, j)
  }

  lemma MapOneTop(s: Space, v: nat, f: Frame, attr: Attr)
    requires s.WF() && Writables(s) && IsPage(v) && !InHuge(s.mem, s.cr3, v) && MapOne(s, v, f, attr).Some?
    ensures var t := MapOne(s, v, f, attr).value;
            t.cr3 == s.cr3 && Writables(t) && (!attr.user ==> OnlyGrows(s, t)) && Word(t.mem, s.cr3, I4(v)) != ZERO
    ensures TopExcept(s, MapOne(s, v, f, attr).value, I4(v))
  {
    hide MapOne, I4, PageTables.Space.WF, OthersStay, TopGuarded, Undisturbed, TablesStay, EmptyOnlyOn;
    WFPm(s);
    MapTop(s, v, f, attr);
    MappingOne(s, v, f, attr);
    var t, i := MapOne(s, v, f, attr).value, I4(v);
    var e := Word(s.mem, s.cr3, i);
    assert {Present, Writable} <= TableFlags(attr);
    if !attr.user && e != ZERO && KernelSlot(i) { assert e.flags + TableFlags(attr) == e.flags; }
  }

  lemma {:induction false} MapPagesTop(s: Space, v: nat, f: Frame, num: nat, attr: Attr)
    requires s.WF() && Writables(s) && SmallPages(s, v, num) && MapPages(s, v, f, num, attr).Some?
    ensures var t := MapPages(s, v, f, num, attr).value;
            t.cr3 == s.cr3 && Writables(t) && (!attr.user ==> OnlyGrows(s, t))
    decreases num
  {
    hide MapOne, Writables, PageTables.Space.WF, OthersStay, TopGuarded, Undisturbed, TablesStay;
    WFPm(s);
    if num > 0 {
      var t := MapOne(s, v, f, attr).value;
      assert IsPage(v) && !InHuge(s.mem, s.cr3, v);
      MapOneTop(s, v, f, attr);
      MappingOne(s, v, f, attr);
      SmallPagesNext(s, t, v, num, Entry(f, LeafFlags(attr)));
      MapPagesTop(t, v + 1, f + 1, num - 1, attr);
    }
  }

  lemma UnmapOneTop(s: Space, v: nat, save: bool)
    requires s.WF() && s.NoEmptyTable() && IsPage(v) && !InHuge(s.mem, s.cr3, v) && FreeSafeAt(s, v, save)
    ensures UnmapOne(s, v, save).0.cr3 == s.cr3 && OnlyShrinks(s, UnmapOne(s, v, save).0)
  {
    hide CollapsePath, I4, I3, I2, I1, OthersStay, TopGuarded, Undisturbed, TablesStay;
    var e := Lookup(s.mem, s.cr3, v);
    var (t, ok) := UnmapOne(s, v, save);
    UnmappingOne(s, v, save);
    if ok {
      if FromPmm in e.flags && !save {
        var u := s.(pm := FreeOne(s.pm, e.frame));
        FreeingFrame(s, e.frame);
        assert u.NoEmptyTable() by { SameTree(s, u); }
        assert UnmapOne(u, v, true).0 == t;
        UnmapTop(u, v);
      } else {
        assert UnmapOne(s, v, true).0 == t;
        UnmapTop(s, v);
      }
    }
  }

  lemma {:induction false} UnmapPagesTop(s: Space, v: nat, num: nat, save: bool)
    requires s.WF() && s.NoEmptyTable() && SmallPages(s, v, num) && FreeSafe(s, v, num, save)
    ensures UnmapPages(s, v, num, save).0.cr3 == s.cr3 && OnlyShrinks(s, UnmapPages(s, v, num, save).0)
    decreases num
  {
    hide UnmapOne, PageTables.Space.WF, FreeSafeAt, OthersStay, TopGuarded, Undisturbed;
    if num > 0 {
      UnmappingOne(s, v, save);
      UnmapOneTop(s, v, save);
      var (t, ok) := UnmapOne(s, v, save);
      if ok {
        SmallPagesNext(s, t, v, num, ZERO);
        FreeSafeNext(s, t, v, num, save);
        UnmapPagesTop(t, v + 1, num - 1, save);
      }
    }
  }

  lemma ShrinkingWritables(s: Space, t: Space)
    requires t.cr3 == s.cr3 && Writables(s) && OnlyShrinks(s, t)
    ensures Writables(t)
  {
  }

  /** A kernel entry of the loaded PML4 is there exactly if the table below it is. */
  lemma EntryIsTable(s: Space, j: nat)
    requires s.WF() && KernelSlot(j)
    ensures Word(s.mem, s.cr3, j) != ZERO <==> Table(s.mem, Sub(Top(s.cr3), j)).Some?
    ensures s.InTree(Sub(Top(s.cr3), j))
  {
    assert s.InTree(Top(s.cr3)) && s.HasSlot(Top(s.cr3), j);
    TopSlot(s.mem, s.cr3, j);
    assert EntryOk(Slot(s.mem, Top(s.cr3), j), 0);
  }

  /** Page `u` is mapped, below slot `j`. */
  ghost predicate Uses(s: Space, j: nat, u: nat) { IsPage(u) && I4(u) == j && Lookup(s.mem, s.cr3, u) != ZERO }

  /** A kernel slot is taken exactly if a page below it is mapped. */
  lemma SlotUsed(s: Space, j: nat)
    requires s.WF() && s.NoEmptyTable() && KernelSlot(j)
    ensures Word(s.mem, s.cr3, j) != ZERO <==> exists u: nat :: Uses(s, j, u)
  {
    hide Lookup, InHuge, I3, I2, I1;
    var n := Sub(Top(s.cr3), j);
    EntryIsTable(s, j);
    ShapeIsMinimal(s, n);
    if Table(s.mem, n).Some? {
      var v :| Through(s, n, v);
      assert N1(s.cr3, v) == n;
      assert Uses(s, j, v);
    }
    if u: nat :| Uses(s, j, u) { assert Through(s, n, u) && n.Depth() == 1; }
  }

  /** Slots that begin below the lowest unmapped kernel page are taken. */
  lemma NearTaken(s: Space, v: nat, u: nat)
    requires s.WF() && s.NoEmptyTable() && Find(s, 1) == Some(v) && FIRST <= u < WINDOW_PAGE && SlotStart(u) < v
    ensures SlotTaken(s, u)
  {
    hide Lookup, I4, IsPage, PageTables.Space.WF, PageTables.Space.NoEmptyTable;
    StartMapped(s, v, u);
    BeforeWindow(u);
    SlotUsed(s, I4(u));
    assert Uses(s, I4(u), SlotStart(u));
  }

  /** The slot of the lowest unmapped kernel page is taken, unless the page is the first of its slot: then it
      is taken only if a later page is mapped. */
  lemma LowestTaken(s: Space, v: nat)
    requires s.WF() && s.NoEmptyTable() && Find(s, 1) == Some(v)
    ensures SlotTaken(s, v) <==> SlotStart(v) < v || exists u: nat :: v < u && Uses(s, I4(v), u)
  {
    hide Lookup, I4, IsPage, PageTables.Space.WF, PageTables.Space.NoEmptyTable, Find;
    assert v < WINDOW_PAGE && RunUnmapped(s, v, 1);
    assert Lookup(s.mem, s.cr3, v) == ZERO;
    BeforeWindow(v);
    SlotUsed(s, I4(v));
    if SlotStart(v) < v { NearTaken(s, v, v); }
    if u: nat :| Uses(s, I4(v), u) {
      SameSlot(u, v);
      assert u != v && (SlotStart(v) == v ==> v < u);
    }
  }

  lemma SameSlot(u: nat, v: nat)
    requires IsPage(u) && FIRST <= v < WINDOW_PAGE && I4(u) == I4(v)
    ensures SlotStart(u) == SlotStart(v) <= u
  {
  }

  // ---- another PML4 that agrees

  /** Nothing changes for a PML4 that is not loaded while the kernel half of the loaded one is the same. */
  lemma FixedAgrees(s: Space, t: Space, r: Frame)
    requires t.cr3 == s.cr3 && Fixed(s, t) && forall j: nat :: KernelSlot(j) ==> Word(t.mem, r, j) == Word(s.mem, r, j)
    ensures AgreeKernel(t.mem, r, t.cr3) <==> AgreeKernel(s.mem, r, s.cr3)
  {
    if AgreeKernel(s.mem, r, s.cr3) {
      forall i: nat | KERNEL_SLOT <= i < PTE_COUNT && i != WINDOW
        ensures SameEntry(Word(t.mem, r, i), Word(t.mem, t.cr3, i))
      {
        assert KernelSlot(i) && SameEntry(Word(s.mem, r, i), Word(s.mem, s.cr3, i));
      }
    }
    if AgreeKernel(t.mem, r, t.cr3) {
      forall i: nat | KERNEL_SLOT <= i < PTE_COUNT && i != WINDOW
        ensures SameEntry(Word(s.mem, r, i), Word(s.mem, s.cr3, i))
      {
        assert KernelSlot(i) && SameEntry(Word(t.mem, r, i), Word(t.mem, t.cr3, i));
      }
    }
  }
}
