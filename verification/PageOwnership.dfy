/** Who owns the allocated frames: tables, pages that must be given back when unmapped, and
    holders outside the page tables (regions, callers that saved a frame). */
module PageOwnership {
  import opened Lists
  import opened PageBitmap
  import opened PageTables
  import opened PageSteps
  import opened PageMap
  import opened PageRefinement

  ghost predicate IsTab(s: Space, f: Frame) {
    exists n :: s.InTree(n) && Table(s.mem, n) == Some(f)
  }

  /** Slot `i` of `n` maps a page whose frame goes back to the allocator when it is unmapped. */
  ghost predicate IsLeaf(s: Space, n: Node, i: nat) {
    s.HasSlot(n, i) && n.Depth() == 3 && FromPmm in Slot(s.mem, n, i).flags
  }

  ghost predicate IsLeafFrame(s: Space, f: Frame) {
    exists n, i: nat :: IsLeaf(s, n, i) && Slot(s.mem, n, i).frame == f
  }

  /** The allocated frames are the disjoint union of the held frames, the tables and the frames of
      pages that own them; no two such pages share a frame. */
  ghost predicate Owned(s: Space, held: set<Frame>) {
    UseOwned(s, held) && HeldApart(s, held) && LeavesApart(s)
  }

  ghost predicate UseOwned(s: Space, held: set<Frame>) {
    forall f: nat :: s.pm.Covers(f) ==> (s.pm.IsUsed(f) <==> f in held || IsTab(s, f) || IsLeafFrame(s, f))
  }

  ghost predicate HeldApart(s: Space, held: set<Frame>) {
    forall f :: f in held ==> s.pm.Covers(f) && !IsTab(s, f) && !IsLeafFrame(s, f)
  }

  ghost predicate LeavesApart(s: Space) {
    && (forall n, i: nat :: IsLeaf(s, n, i) ==>
           s.pm.Covers(Slot(s.mem, n, i).frame) && !IsTab(s, Slot(s.mem, n, i).frame))
    && (forall n, i: nat, m, j: nat ::
          IsLeaf(s, n, i) && IsLeaf(s, m, j) && Slot(s.mem, n, i).frame == Slot(s.mem, m, j).frame ==>
            n == m && i == j)
  }

  /** Same tables, same pages, same allocation: same ownership. */
  lemma OwnedSame(s: Space, t: Space, held: set<Frame>)
    requires Owned(s, held) && SameRoots(s, t) && t.pm == s.pm
    requires forall m :: s.InTree(m) ==> Table(t.mem, m) == Table(s.mem, m)
    requires forall m, j: nat :: s.HasSlot(m, j) && m.Depth() == 3 ==> Slot(t.mem, m, j) == Slot(s.mem, m, j)
    ensures Owned(t, held)
  {
    SameTree(s, t);
    forall f: nat ensures IsTab(t, f) == IsTab(s, f) && IsLeafFrame(t, f) == IsLeafFrame(s, f) {
      SameRoles(s, t, f);
    }
    assert forall m, j: nat :: IsLeaf(s, m, j) == IsLeaf(t, m, j);
  }

  lemma SameRoles(s: Space, t: Space, f: Frame)
    requires SameRoots(s, t)
    requires forall m :: s.InTree(m) ==> Table(t.mem, m) == Table(s.mem, m)
    requires forall m, j: nat :: s.HasSlot(m, j) && m.Depth() == 3 ==> Slot(t.mem, m, j) == Slot(s.mem, m, j)
    ensures IsTab(t, f) == IsTab(s, f) && IsLeafFrame(t, f) == IsLeafFrame(s, f)
  {
    SameTree(s, t);
    if IsTab(s, f) { var n :| s.InTree(n) && Table(s.mem, n) == Some(f); assert t.InTree(n); }
    if IsTab(t, f) { var n :| t.InTree(n) && Table(t.mem, n) == Some(f); assert s.InTree(n); }
    if IsLeafFrame(s, f) { var n, i: nat :| IsLeaf(s, n, i) && Slot(s.mem, n, i).frame == f; assert IsLeaf(t, n, i); }
    if IsLeafFrame(t, f) { var n, i: nat :| IsLeaf(t, n, i) && Slot(t.mem, n, i).frame == f; assert IsLeaf(s, n, i); }
  }

  /** A free frame becomes a table, or a table's frame becomes free. */
  ghost predicate TableMoves(s: Space, t: Space, c: Node, g: Frame)
    requires s.pm.Valid()
  {
    || (Table(s.mem, c) == None && Table(t.mem, c) == Some(g) && s.pm.IsFree(g) && t.pm == s.pm.Mark(g, 1, true))
    || (Table(s.mem, c) == Some(g) && Table(t.mem, c) == None && t.pm == FreeOne(s.pm, g))
  }

  lemma TableRoles(s: Space, t: Space, n: Node, i: nat, e: Entry, g: Frame, f: Frame)
    requires s.WF() && Stepped(s, t, n, i, e) && s.HasSlot(n, i) && n.Depth() < 3 && TableMoves(s, t, Sub(n, i), g)
    ensures IsLeafFrame(t, f) == IsLeafFrame(s, f)
    ensures IsTab(t, f) == if f == g then Table(t.mem, Sub(n, i)).Some? else IsTab(s, f)
    ensures f == g ==> IsTab(s, f) == Table(s.mem, Sub(n, i)).Some?
  {
    hide Undisturbed;
    SameTree(s, t);
    assert s.InTree(Sub(n, i)) && t.InTree(Sub(n, i));
    if IsLeafFrame(s, f) {
      var m, j: nat :| IsLeaf(s, m, j) && Slot(s.mem, m, j).frame == f;
      assert s.InTree(m) && IsLeaf(t, m, j);
    }
    if IsLeafFrame(t, f) {
      var m, j: nat :| IsLeaf(t, m, j) && Slot(t.mem, m, j).frame == f;
      assert s.InTree(m) && IsLeaf(s, m, j);
    }
    if IsTab(s, f) { var m :| s.InTree(m) && Table(s.mem, m) == Some(f); assert t.InTree(m); }
    if IsTab(t, f) { var m :| t.InTree(m) && Table(t.mem, m) == Some(f); assert s.InTree(m); }
  }

  lemma OwnTable(s: Space, t: Space, n: Node, i: nat, e: Entry, g: Frame, held: set<Frame>)
    requires s.WF() && Owned(s, held) && Stepped(s, t, n, i, e) && s.HasSlot(n, i) && n.Depth() < 3
    requires TableMoves(s, t, Sub(n, i), g)
    ensures Owned(t, held)
  {
    hide Undisturbed, IsTab, IsLeafFrame;
    forall f: nat
      ensures IsLeafFrame(t, f) == IsLeafFrame(s, f)
      ensures IsTab(t, f) == if f == g then Table(t.mem, Sub(n, i)).Some? else IsTab(s, f)
      ensures f == g ==> IsTab(s, f) == Table(s.mem, Sub(n, i)).Some?
    {
      TableRoles(s, t, n, i, e, g, f);
    }
    NotLeafFrame(s, g, held);
    OwnTableUse(s, t, Sub(n, i), g, held);
    LeavesStay(s, t, n, i, e, g);
  }

  /** A free frame or a table is no page's frame. */
  lemma NotLeafFrame(s: Space, g: Frame, held: set<Frame>)
    requires s.pm.Valid() && Owned(s, held) && (s.pm.IsFree(g) || IsTab(s, g))
    ensures !IsLeafFrame(s, g)
  {
  }

  lemma OwnTableUse(s: Space, t: Space, c: Node, g: Frame, held: set<Frame>)
    requires s.pm.Valid() && UseOwned(s, held) && HeldApart(s, held) && TableMoves(s, t, c, g) && !IsLeafFrame(s, g)
    requires forall f: nat :: IsLeafFrame(t, f) == IsLeafFrame(s, f)
    requires forall f: nat :: IsTab(t, f) == if f == g then Table(t.mem, c).Some? else IsTab(s, f)
    requires IsTab(s, g) == Table(s.mem, c).Some?
    ensures UseOwned(t, held) && HeldApart(t, held)
  {
    hide IsTab, IsLeafFrame;
    assert g !in held;
  }

  lemma LeavesStay(s: Space, t: Space, n: Node, i: nat, e: Entry, g: Frame)
    requires Stepped(s, t, n, i, e) && n.Depth() < 3 && LeavesApart(s) && !IsLeafFrame(s, g)
    requires forall f: nat :: f != g && IsTab(t, f) ==> IsTab(s, f)
    ensures LeavesApart(t)
  {
    hide Undisturbed, IsTab, PageTables.Space.WF;
    SameTree(s, t);
    forall m, j: nat | IsLeaf(t, m, j)
      ensures IsLeaf(s, m, j) && Slot(t.mem, m, j) == Slot(s.mem, m, j)
    {
      assert s.InTree(m);
    }
  }

  /** The frame that a page with this entry owns. */
  function OwnedFrame(e: Entry): set<Frame> { if FromPmm in e.flags then {e.frame} else {} }

  /** What becomes of the holders when page entry `o` is replaced by `e`: a page that owns its
      frame takes it from them, and one that owned its frame hands it to them. */
  ghost predicate LeafMoves(o: Entry, e: Entry, held: set<Frame>, held': set<Frame>) {
    OwnedFrame(e) <= held && held' == held + OwnedFrame(o) - OwnedFrame(e)
  }

  lemma LeafRoles(s: Space, t: Space, n: Node, i: nat, e: Entry, f: Frame)
    requires s.WF() && LeavesApart(s) && Stepped(s, t, n, i, e) && s.HasSlot(n, i) && n.Depth() == 3
    ensures IsTab(t, f) == IsTab(s, f)
    ensures var o := Slot(s.mem, n, i);
            && (FromPmm in o.flags ==> IsLeafFrame(s, o.frame))
            && (IsLeafFrame(t, f) <==>
                  (FromPmm in e.flags && f == e.frame) || (IsLeafFrame(s, f) && !(FromPmm in o.flags && f == o.frame)))
  {
    hide Undisturbed;
    SameTree(s, t);
    var o := Slot(s.mem, n, i);
    forall m | s.InTree(m) ensures m != Sub(n, i) {
      NotBelowLeaf(s, m, Sub(n, i));
    }
    if IsTab(s, f) { var m :| s.InTree(m) && Table(s.mem, m) == Some(f); assert t.InTree(m); }
    if IsTab(t, f) { var m :| t.InTree(m) && Table(t.mem, m) == Some(f); assert s.InTree(m); }
    if FromPmm in o.flags { assert IsLeaf(s, n, i); }
    if FromPmm in e.flags { assert s.InTree(n) && IsLeaf(t, n, i) && Slot(t.mem, n, i).frame == e.frame; }
    if IsLeafFrame(s, f) {
      var m, j: nat :| IsLeaf(s, m, j) && Slot(s.mem, m, j).frame == f;
      assert s.InTree(m);
      if m != n || j != i { assert IsLeaf(t, m, j) && Slot(t.mem, m, j).frame == f; }
    }
    if IsLeafFrame(t, f) {
      var m, j: nat :| IsLeaf(t, m, j) && Slot(t.mem, m, j).frame == f;
      assert s.InTree(m);
      if m != n || j != i { assert IsLeaf(s, m, j) && Slot(s.mem, m, j).frame == f; }
    }
  }

  lemma OwnLeaf(s: Space, t: Space, n: Node, i: nat, e: Entry, held: set<Frame>, held': set<Frame>)
    requires s.WF() && Owned(s, held) && Stepped(s, t, n, i, e) && s.HasSlot(n, i) && n.Depth() == 3 && t.pm == s.pm
    requires LeafMoves(Slot(s.mem, n, i), e, held, held')
    ensures Owned(t, held')
  {
    hide Undisturbed, IsTab, IsLeafFrame, PageTables.Space.WF;
    var o := Slot(s.mem, n, i);
    forall f: nat
      ensures IsTab(t, f) == IsTab(s, f)
      ensures FromPmm in o.flags ==> IsLeafFrame(s, o.frame)
      ensures IsLeafFrame(t, f) <==>
                (FromPmm in e.flags && f == e.frame) || (IsLeafFrame(s, f) && !(FromPmm in o.flags && f == o.frame))
    {
      LeafRoles(s, t, n, i, e, f);
    }
    if FromPmm in o.flags { assert IsLeaf(s, n, i); }
    LeavesMove(s, t, n, i, e, held);
  }

  lemma LeavesMove(s: Space, t: Space, n: Node, i: nat, e: Entry, held: set<Frame>)
    requires Stepped(s, t, n, i, e) && LeavesApart(s) && HeldApart(s, held) && t.pm == s.pm
    requires FromPmm in e.flags ==> e.frame in held
    requires forall f: nat :: IsTab(t, f) == IsTab(s, f)
    ensures LeavesApart(t)
  {
    hide Undisturbed, IsTab, PageTables.Space.WF;
    SameTree(s, t);
    forall m, j: nat | IsLeaf(t, m, j)
      ensures (m == n && j == i && Slot(t.mem, m, j) == e)
              || (IsLeaf(s, m, j) && Slot(t.mem, m, j) == Slot(s.mem, m, j))
    {
      assert s.InTree(m);
    }
    assert FromPmm in e.flags ==> !IsLeafFrame(s, e.frame);
    assert forall m, j: nat :: IsLeaf(s, m, j) ==> IsLeafFrame(s, Slot(s.mem, m, j).frame);
  }

  /** Giving back a held frame. */
  lemma OwnFree(s: Space, f: Frame, held: set<Frame>)
    requires s.WF() && Owned(s, held) && f in held
    ensures Owned(s.(pm := FreeOne(s.pm, f)), held - {f})
  {
    var t := s.(pm := FreeOne(s.pm, f));
    SameTree(s, t);
    forall g: nat ensures IsTab(t, g) == IsTab(s, g) && IsLeafFrame(t, g) == IsLeafFrame(s, g) {
      SameRoles(s, t, g);
    }
    assert forall m, j: nat :: IsLeaf(s, m, j) == IsLeaf(t, m, j);
  }

  lemma OwnEnsureTable(s: Space, n: Node, i: nat, flags: set<Flag>, held: set<Frame>)
    requires s.WF() && Owned(s, held)
    requires s.HasSlot(n, i) && n.Depth() < 3 && Table(s.mem, n).Some? && Huge !in Slot(s.mem, n, i).flags
    requires IsTable(Entry(0, flags)) && n.Root() == s.cr3 && EnsureTable(s, n, i, flags).Some?
    ensures Owned(EnsureTable(s, n, i, flags).value, held)
  {
    var e := Slot(s.mem, n, i);
    var t := EnsureTable(s, n, i, flags).value;
    if e == ZERO {
      var g := FirstFit(s.pm, 1, 0).value;
      assert s.pm.IsFree(g);
      Growing(s, n, i, g, flags);
      OwnTable(s, t, n, i, Entry(g, flags), g, held);
    } else {
      var e' := Entry(e.frame, e.flags + flags);
      Retag(s, n, i, e');
      assert s.InTree(Sub(n, i));
      assert Table(t.mem, Sub(n, i)) == Table(s.mem, Sub(n, i));
      OwnedSame(s, t, held);
    }
  }

  lemma OwnAlert(s: Space, held: set<Frame>)
    requires s.WF() && Owned(s, held)
    ensures Owned(Alert(s), held)
  {
    Alerting(s);
    FollowsRoots(s, Alert(s));
    OwnedSame(s, Alert(s), held);
  }

  lemma OwnEnsurePath(s: Space, v: nat, flags: set<Flag>, held: set<Frame>)
    requires s.WF() && Owned(s, held) && IsPage(v) && IsTable(Entry(0, flags)) && flags !! {Accessed, Dirty}
    requires !InHuge(s.mem, s.cr3, v) && EnsurePath(s, v, flags).Some?
    ensures Owned(EnsurePath(s, v, flags).value, held)
  {
    hide Owned, PageTables.Space.WF, Undisturbed;
    var r := s.cr3;
    PathInTree(s, v);
    assert Huge !in Slot(s.mem, Top(r), I4(v)).flags && s.pm.Valid() by { UpperEntries(s, v); }
    OwnEnsureTable(s, Top(r), I4(v), flags, held);
    EnsuringTable(s, Top(r), I4(v), flags);
    OwnAlert(EnsureTable(s, Top(r), I4(v), flags).value, held);
    EnsuringTop(s, v, flags);
    var s1 := EnsureTop(s, I4(v), flags).value;
    PathInTree(s1, v);
    assert Huge !in Slot(s1.mem, N1(r, v), I3(v)).flags && s1.pm.Valid() by { UpperEntries(s1, v); }
    OwnEnsureTable(s1, N1(r, v), I3(v), flags, held);
    EnsuringTable(s1, N1(r, v), I3(v), flags);
    var s2 := EnsureTable(s1, N1(r, v), I3(v), flags).value;
    PathInTree(s2, v);
    assert s2.pm.Valid() by { UpperEntries(s2, v); }
    OwnEnsureTable(s2, N2(r, v), I2(v), flags, held);
  }

  /** The frame that a page takes from its holder when it is mapped to `f`. */
  function TakenFrame(f: Frame, attr: Attr): set<Frame> { if attr.save then {} else {f} }

  lemma LeafOwned(f: Frame, attr: Attr)
    ensures OwnedFrame(Entry(f, LeafFlags(attr))) == TakenFrame(f, attr)
  {
  }

  /** Mapping one page: it takes its frame from the holders unless the caller keeps it, and a frame
      that it owned before is left to them. */
  lemma OwnMapOne(s: Space, v: nat, f: Frame, attr: Attr, held: set<Frame>)
    requires s.WF() && Owned(s, held) && IsPage(v) && !InHuge(s.mem, s.cr3, v) && MapOne(s, v, f, attr).Some?
    requires attr.save || f in held
    ensures Owned(MapOne(s, v, f, attr).value, held + OwnedFrame(Lookup(s.mem, s.cr3, v)) - TakenFrame(f, attr))
  {
    hide Owned, EnsurePath, Undisturbed, TopGuarded, TablesStay, OthersStay, EmptyOnlyOn;
    var flags, e := TableFlags(attr), Entry(f, LeafFlags(attr));
    OwnEnsurePath(s, v, flags, held);
    EnsuringPath(s, v, flags);
    var u := EnsurePath(s, v, flags).value;
    PathInTree(u, v);
    SetLeaf(u, N3(s.cr3, v), I1(v), e);
    assert Lookup(u.mem, s.cr3, v) == Lookup(s.mem, s.cr3, v);
    LeafOwned(f, attr);
    OwnLeaf(u, MapOne(s, v, f, attr).value, N3(s.cr3, v), I1(v), e, held,
            held + OwnedFrame(Lookup(s.mem, s.cr3, v)) - TakenFrame(f, attr));
  }

  lemma OwnCollapse(s: Space, n: Node, i: nat, held: set<Frame>)
    requires s.WF() && Owned(s, held) && s.HasSlot(n, i) && n.Depth() < 3 && IsTable(Slot(s.mem, n, i))
    ensures Owned(Collapse(s, n, i), held)
  {
    if s.AllZero(Sub(n, i)) {
      Pruning(s, n, i);
      OwnTable(s, Prune(s, n, i), n, i, ZERO, Slot(s.mem, n, i).frame, held);
    }
  }

  lemma OwnCollapsePath(s: Space, v: nat, held: set<Frame>)
    requires s.WF() && Owned(s, held) && IsPage(v) && Table(s.mem, N3(s.cr3, v)).Some?
    ensures Owned(CollapsePath(s, v), held)
  {
    hide Owned, PageTables.Space.WF, Undisturbed;
    var r := s.cr3;
    PathInTree(s, v);
    OwnCollapse(s, N2(r, v), I2(v), held);
    Collapsing(s, N2(r, v), I2(v), v);
    var s3 := Collapse(s, N2(r, v), I2(v));
    PathInTree(s3, v);
    assert Table(s3.mem, N2(r, v)).Some?;
    OwnCollapse(s3, N1(r, v), I3(v), held);
    Collapsing(s3, N1(r, v), I3(v), v);
    var s2 := Collapse(s3, N1(r, v), I3(v));
    PathInTree(s2, v);
    assert Table(s2.mem, N1(r, v)).Some?;
    OwnCollapse(s2, Top(r), I4(v), held);
    Collapsing(s2, Top(r), I4(v), v);
    OwnAlert(Collapse(s2, Top(r), I4(v)), held);
  }

  /** Who holds the frame of page `v` after it is unmapped. */
  function HeldAfter(s: Space, v: nat, save: bool, held: set<Frame>): set<Frame> {
    var e := Lookup(s.mem, s.cr3, v);
    if FromPmm in e.flags && save then held + {e.frame} else held
  }

  /** Unmapping one page never fails on a mapped page and accounts for its frame. */
  lemma OwnUnmapOne(s: Space, v: nat, save: bool, held: set<Frame>)
    requires s.WF() && s.NoEmptyTable() && Owned(s, held) && IsPage(v) && !InHuge(s.mem, s.cr3, v)
    requires Lookup(s.mem, s.cr3, v) != ZERO
    ensures FreeSafeAt(s, v, save) && UnmapOne(s, v, save).1
    ensures Owned(UnmapOne(s, v, save).0, HeldAfter(s, v, save, held))
  {
    hide Undisturbed, TopGuarded, TablesStay, OthersStay, EmptyOnlyOn, CollapsePath;
    var n, i := N3(s.cr3, v), I1(v);
    var e := Lookup(s.mem, s.cr3, v);
    PathInTree(s, v);
    if FromPmm in e.flags {
      assert IsLeaf(s, n, i);
      assert IsLeafFrame(s, e.frame) && s.pm.IsUsed(e.frame);
    }
    ClearingLeaf(s, v);
    SetLeaf(s, n, i, ZERO);
    var w := Write(s, n, i, ZERO);
    var h := if FromPmm in e.flags then held + {e.frame} else held;
    assert LeafMoves(e, ZERO, held, h);
    OwnLeaf(s, w, n, i, ZERO, held, h);
    if FromPmm in e.flags && !save {
      OwnFree(w, e.frame, h);
      assert h - {e.frame} == held by { assert e.frame !in held; }
      FreeingFrame(w, e.frame);
      var x := w.(pm := FreeOne(w.pm, e.frame));
      assert x == Write(s.(pm := FreeOne(s.pm, e.frame)), n, i, ZERO);
      OwnCollapsePath(x, v, held);
    } else {
      OwnCollapsePath(w, v, h);
    }
  }
}
