/** Bringing a PML4 up to date with the loaded one (kernel/mm/vmm.c, `vmm_sync`): the sync maps it
    temporarily with the very operations it is meant to propagate. */
module PageSync {
  import opened Lists
  import opened PageBitmap
  import opened PageTables
  import opened PageSteps
  import opened PageMap
  import opened PageRefinement
  import opened PageRanges

  /** The two PML4s lead to the same kernel tables. */
  ghost predicate AgreeKernel(mem: Mem, a: Frame, b: Frame) {
    forall i: nat :: KERNEL_SLOT <= i < PTE_COUNT && i != WINDOW ==> SameEntry(Word(mem, a, i), Word(mem, b, i))
  }

  /** Every queued task that would not sync sees the kernel as the loaded PML4 does. */
  ghost predicate Coherent(s: Space) {
    forall i :: 0 <= i < |s.tasks| && s.tasks[i].queued && s.tasks[i].vmm != s.cr3 && !s.tasks[i].stale ==>
      AgreeKernel(s.mem, s.tasks[i].vmm, s.cr3)
  }

  /** PML4s other than the loaded one and `r` keep their contents. */
  ghost predicate RootsStay(s: Space, t: Space, r: Frame) {
    forall q: nat, j: nat :: s.IsRoot(q) && q != s.cr3 && q != r ==> Word(t.mem, q, j) == Word(s.mem, q, j)
  }

  lemma TopSlot(mem: Mem, r: Frame, j: nat)
    ensures Slot(mem, Top(r), j) == Word(mem, r, j)
  {
  }

  lemma RootsStayFollows(s: Space, t: Space)
    requires Follows(s, t)
    ensures forall r: Frame :: RootsStay(s, t, r)
  {
    forall q: nat, j: nat | s.IsRoot(q) && q != s.cr3 ensures Word(t.mem, q, j) == Word(s.mem, q, j) {
      assert s.InTree(Top(q)) && Top(q).Root() == q;
      assert Slot(t.mem, Top(q), j) == Slot(s.mem, Top(q), j);
      TopSlot(t.mem, q, j);
      TopSlot(s.mem, q, j);
    }
  }

  /** Guarded changes of the loaded PML4 keep the tasks coherent, except perhaps those that use `r`. */
  lemma GuardedKeeps(s: Space, t: Space, r: Frame, i: int)
    requires Coherent(s) && t.cr3 == s.cr3 && TasksFollow(s, t) && TopGuarded(s, t) && RootsStay(s, t, r)
    requires 0 <= i < |t.tasks| && t.tasks[i].queued && t.tasks[i].vmm != t.cr3 && !t.tasks[i].stale
             && t.tasks[i].vmm != r
    ensures AgreeKernel(t.mem, t.tasks[i].vmm, t.cr3)
  {
    var q := s.tasks[i].vmm;
    assert s.tasks[i] in s.tasks && s.IsRoot(q);
    assert AgreeKernel(s.mem, q, s.cr3);
    forall j: nat | KERNEL_SLOT <= j < PTE_COUNT && j != WINDOW
      ensures SameEntry(Word(t.mem, q, j), Word(t.mem, t.cr3, j))
    {
      assert s.HasSlot(Top(s.cr3), j);
      assert SameEntry(Slot(t.mem, Top(s.cr3), j), Slot(s.mem, Top(s.cr3), j));
      TopSlot(t.mem, s.cr3, j);
      TopSlot(s.mem, s.cr3, j);
      assert SameEntry(Word(s.mem, q, j), Word(s.mem, s.cr3, j));
      assert !Alerted(t);
      SameEntryFacts(Word(t.mem, s.cr3, j), Word(s.mem, s.cr3, j), ZERO);
      SameEntryFacts(Word(s.mem, q, j), Word(s.mem, s.cr3, j), Word(t.mem, s.cr3, j));
    }
  }

  lemma FollowsKeeps(s: Space, t: Space)
    requires Coherent(s) && Follows(s, t) && TopGuarded(s, t)
    ensures Coherent(t)
  {
    RootsStayFollows(s, t);
    forall i | 0 <= i < |t.tasks| && t.tasks[i].queued && t.tasks[i].vmm != t.cr3 && !t.tasks[i].stale
      ensures AgreeKernel(t.mem, t.tasks[i].vmm, t.cr3)
    {
      GuardedKeeps(s, t, s.cr3, i);
    }
  }

  // ---- what one page does to the loaded PML4

  ghost predicate TopExcept(s: Space, t: Space, i: nat) {
    forall j: nat :: j != i ==> Word(t.mem, s.cr3, j) == Word(s.mem, s.cr3, j)
  }

  lemma StepTop(s: Space, t: Space, n: Node, i: nat, e: Entry)
    requires Stepped(s, t, n, i, e) && n.Root() == s.cr3
    ensures forall j: nat :: Word(t.mem, s.cr3, j) == if n.Top? && j == i then e else Word(s.mem, s.cr3, j)
  {
    assert s.InTree(Top(s.cr3));
    forall j: nat ensures Word(t.mem, s.cr3, j) == if n.Top? && j == i then e else Word(s.mem, s.cr3, j) {
      assert Slot(t.mem, Top(s.cr3), j) == if Top(s.cr3) == n && j == i then e else Slot(s.mem, Top(s.cr3), j);
    }
  }

  /** Mapping one page changes the loaded PML4 in the slot of that page only; an entry that was there
      gets flags. */
  lemma MapTop(s: Space, v: nat, f: Frame, attr: Attr)
    requires s.WF() && IsPage(v) && !InHuge(s.mem, s.cr3, v) && MapOne(s, v, f, attr).Some?
    ensures TopEnsured(s, MapOne(s, v, f, attr).value, I4(v), TableFlags(attr))
  {
    hide Undisturbed, OthersStay, TopGuarded, PageTables.Space.WF, I4, I3, I2, I1, EnsureTop, EnsureTable, TopEnsured;
    var flags, r := TableFlags(attr), s.cr3;
    UpperEntries(s, v);
    EnsuringFirst(s, v, flags);
    EnsuringTop(s, v, flags);
    var s1 := EnsureTop(s, I4(v), flags).value;
    PathInTree(s1, v);
    UpperEntries(s1, v);
    EnsuringTable(s1, N1(r, v), I3(v), flags);
    var s2 := EnsureTable(s1, N1(r, v), I3(v), flags).value;
    StepTop(s1, s2, N1(r, v), I3(v), Slot(s2.mem, N1(r, v), I3(v)));
    PathInTree(s2, v);
    UpperEntries(s2, v);
    EnsuringTable(s2, N2(r, v), I2(v), flags);
    var s3 := EnsureTable(s2, N2(r, v), I2(v), flags).value;
    StepTop(s2, s3, N2(r, v), I2(v), Slot(s3.mem, N2(r, v), I2(v)));
    PathInTree(s3, v);
    UpperEntries(s3, v);
    var e := Entry(f, LeafFlags(attr));
    SetLeaf(s3, N3(r, v), I1(v), e);
    StepTop(s3, Write(s3, N3(r, v), I1(v), e), N3(r, v), I1(v), e);
    SameEnsured(s, s1, MapOne(s, v, f, attr).value, I4(v), flags);
  }

  /** The loaded PML4 after a table was ensured below slot `i`. */
  ghost predicate TopEnsured(s: Space, t: Space, i: nat, flags: set<Flag>) {
    && TopExcept(s, t, i) && flags <= Word(t.mem, s.cr3, i).flags
    && (Word(s.mem, s.cr3, i) != ZERO ==>
          Word(t.mem, s.cr3, i) == Entry(Word(s.mem, s.cr3, i).frame, Word(s.mem, s.cr3, i).flags + flags))
    && (Word(s.mem, s.cr3, i) == ZERO ==> s.pm.Valid() && s.pm.IsFree(Word(t.mem, s.cr3, i).frame))
  }

  lemma EnsuringFirst(s: Space, v: nat, flags: set<Flag>)
    requires s.WF() && IsPage(v) && IsTable(Entry(0, flags)) && EnsureTop(s, I4(v), flags).Some?
    ensures EnsureTop(s, I4(v), flags).value.cr3 == s.cr3
            && TopEnsured(s, EnsureTop(s, I4(v), flags).value, I4(v), flags)
  {
    hide Undisturbed, OthersStay, TopGuarded, PageTables.Space.WF, I4, I3, I2, I1;
    var r := s.cr3;
    PathInTree(s, v);
    UpperEntries(s, v);
    EnsuringTable(s, Top(r), I4(v), flags);
    var u := EnsureTable(s, Top(r), I4(v), flags).value;
    StepTop(s, u, Top(r), I4(v), Slot(u.mem, Top(r), I4(v)));
    TopSlot(s.mem, r, I4(v));
    if Word(s.mem, r, I4(v)) == ZERO { NewEntry(s, I4(v), flags); }
  }

  /** A new entry of the loaded PML4 leads to a frame that was free. */
  lemma NewEntry(s: Space, i: nat, flags: set<Flag>)
    requires s.WF() && i < PTE_COUNT && Word(s.mem, s.cr3, i) == ZERO && EnsureTable(s, Top(s.cr3), i, flags).Some?
    ensures s.pm.IsFree(Word(EnsureTable(s, Top(s.cr3), i, flags).value.mem, s.cr3, i).frame)
  {
    assert s.InTree(Top(s.cr3)) && Table(s.mem, Top(s.cr3)) == Some(s.cr3);
    TopSlot(s.mem, s.cr3, i);
    var g := FirstFit(s.pm, 1, 0).value;
    assert s.pm.RunFree(g, 1) && s.pm.IsFree(g) && g != s.cr3;
  }

  lemma SameEnsured(s: Space, t: Space, w: Space, i: nat, flags: set<Flag>)
    requires t.cr3 == s.cr3 && TopEnsured(s, t, i, flags)
             && forall j: nat :: Word(w.mem, s.cr3, j) == Word(t.mem, s.cr3, j)
    ensures TopEnsured(s, w, i, flags)
  {
  }

  ghost predicate SameTop(s: Space, t: Space) {
    t.cr3 == s.cr3 && forall j: nat :: Word(t.mem, s.cr3, j) == Word(s.mem, s.cr3, j)
  }

  lemma CollapseTopStays(s: Space, n: Node, i: nat)
    requires s.WF() && s.HasSlot(n, i) && n.Sub? && n.Depth() < 3 && IsTable(Slot(s.mem, n, i)) && n.Root() == s.cr3
    ensures SameTop(s, Collapse(s, n, i))
  {
    if s.AllZero(Sub(n, i)) {
      Pruning(s, n, i);
      StepTop(s, Prune(s, n, i), n, i, ZERO);
    }
  }

  /** A page's entry is cleared and its empty PT and PD are given back. */
  function ClearLower(s: Space, v: nat): Space {
    var w := Write(s, N3(s.cr3, v), I1(v), ZERO);
    Collapse(Collapse(w, N2(s.cr3, v), I2(v)), N1(s.cr3, v), I3(v))
  }

  lemma ClearingLower(s: Space, v: nat)
    requires s.WF() && s.NoEmptyTable() && IsPage(v) && !InHuge(s.mem, s.cr3, v) && Lookup(s.mem, s.cr3, v) != ZERO
    ensures var t := ClearLower(s, v);
            && t.WF() && SameTop(s, t) && Table(t.mem, N1(s.cr3, v)).Some?
            && t.pm.base == s.pm.base && t.pm.usable == s.pm.usable
            && UnmapOne(s, v, true).0 == CollapseTop(t, v)
  {
    hide Undisturbed, OthersStay, TopGuarded, PageTables.Space.WF, I4, I3, I2, I1, CollapseTop;
    var r := s.cr3;
    PathInTree(s, v);
    ClearingLeaf(s, v);
    SetLeaf(s, N3(r, v), I1(v), ZERO);
    var w := Write(s, N3(r, v), I1(v), ZERO);
    StepTop(s, w, N3(r, v), I1(v), ZERO);
    PathInTree(w, v);
    CollapseTopStays(w, N2(r, v), I2(v));
    Collapsing(w, N2(r, v), I2(v), v);
    var s3 := Collapse(w, N2(r, v), I2(v));
    PathInTree(s3, v);
    assert Table(s3.mem, N2(r, v)).Some?;
    CollapseTopStays(s3, N1(r, v), I3(v));
    Collapsing(s3, N1(r, v), I3(v), v);
  }

  /** Unmapping one page changes the loaded PML4 only if it takes away the page's PDPT. */
  lemma UnmapTop(s: Space, v: nat)
    requires s.WF() && s.NoEmptyTable() && IsPage(v) && !InHuge(s.mem, s.cr3, v) && Lookup(s.mem, s.cr3, v) != ZERO
    ensures var t := UnmapOne(s, v, true).0;
            && TopExcept(s, t, I4(v))
            && Word(t.mem, s.cr3, I4(v)) ==
                 (if Table(t.mem, N1(s.cr3, v)).Some? then Word(s.mem, s.cr3, I4(v)) else ZERO)
  {
    hide Undisturbed, PageTables.Space.WF, I4, I3, I2, I1, UnmapOne, ClearLower;
    var r, t := s.cr3, ClearLower(s, v);
    ClearingLower(s, v);
    PathInTree(t, v);
    TopSlot(t.mem, r, I4(v));
    if t.AllZero(N1(r, v)) {
      Pruning(t, Top(r), I4(v));
      StepTop(t, Prune(t, Top(r), I4(v)), Top(r), I4(v), ZERO);
    }
  }

  /** A PDPT that unmapping takes away is given back. */
  lemma UnmapFrees(s: Space, v: nat)
    requires s.WF() && s.NoEmptyTable() && IsPage(v) && !InHuge(s.mem, s.cr3, v) && Lookup(s.mem, s.cr3, v) != ZERO
    requires var f := Word(s.mem, s.cr3, I4(v)).frame; s.pm.Covers(f) && s.pm.usable[f - s.pm.base]
    ensures var t := UnmapOne(s, v, true).0;
            && t.pm.Valid()
            && (Table(t.mem, N1(s.cr3, v)) == None ==> t.pm.IsFree(Word(s.mem, s.cr3, I4(v)).frame))
  {
    hide I4, I3, I2, I1, UnmapOne, ClearLower, CollapseTop, Lookup;
    ClearingLower(s, v);
    TopFreed(ClearLower(s, v), v);
  }

  lemma TopFreed(s: Space, v: nat)
    requires s.WF() && IsPage(v) && Table(s.mem, N1(s.cr3, v)).Some?
    requires var f := Word(s.mem, s.cr3, I4(v)).frame; s.pm.Covers(f) && s.pm.usable[f - s.pm.base]
    ensures var t := CollapseTop(s, v);
            && t.pm.Valid()
            && (Table(t.mem, N1(s.cr3, v)) == None ==> t.pm.IsFree(Word(s.mem, s.cr3, I4(v)).frame))
  {
    hide I4, I3, I2, I1;
    PathInTree(s, v);
    TopSlot(s.mem, s.cr3, I4(v));
    var f := Word(s.mem, s.cr3, I4(v)).frame;
    assert Table(s.mem, N1(s.cr3, v)) == Some(f) && s.InTree(N1(s.cr3, v)) && !s.pm.IsFree(f);
  }

  // ---- syncing a PML4 with the loaded one

  /** The temporary mapping of the PML4 that is being synced. */
  const TEMPORARY := Attr(false, false, false, false, true, false)

  /** What `vmm_sync` leaves in the PML4: user slots 0..254 cleared, slot 255 untouched, the kernel
      half copied from the loaded PML4, the window pointing at itself. */
  function SyncedTable(mem: Mem, r: Frame, loaded: Frame): (t: seq<Entry>)
    ensures |t| == PTE_COUNT
  {
    seq(PTE_COUNT, i requires 0 <= i < PTE_COUNT =>
      if i < KERNEL_SLOT - 1 then ZERO
      else if i < KERNEL_SLOT then Word(mem, r, i)
      else if i == WINDOW then Entry(r, {Present, Writable})
      else Word(mem, loaded, i))
  }

  /** Sync PML4 `r` through a temporary mapping at the unmapped kernel page `v`. */
  function Sync(s: Space, r: Frame, v: nat): (t: Option<Space>)
    requires s.pm.Valid()
  {
    match MapOne(s, v, r, TEMPORARY)
    case None => None
    case Some(s1) =>
      var f := Lookup(s1.mem, s1.cr3, v).frame;
      var s2 := s1.(mem := s1.mem[f := SyncedTable(s1.mem, f, s1.cr3)]);
      Some(UnmapOne(s2, v, true).0)
  }

  /** Overwriting a PML4 that is not loaded: the tables of other address spaces stay, and below it
      a table stays or vanishes. */
  lemma {:induction false} RewriteAt(s: Space, r: Frame, m: Node)
    requires s.WF() && s.IsRoot(r) && r != s.cr3 && s.InTree(m)
    ensures var mem := s.mem[r := SyncedTable(s.mem, r, s.cr3)];
            && (m.Root() != r || m.Top? ==> Table(mem, m) == Table(s.mem, m))
            && (Table(mem, m) == None || Table(mem, m) == Table(s.mem, m))
            && (m != Top(r) && Table(mem, m).Some? ==> forall j: nat :: Slot(mem, m, j) == Slot(s.mem, m, j))
            && (m.Root() != r ==> forall j: nat :: Slot(mem, m, j) == Slot(s.mem, m, j))
  {
    var mem := s.mem[r := SyncedTable(s.mem, r, s.cr3)];
    assert s.InTree(Top(r)) && Table(s.mem, Top(r)) == Some(r);
    if m.Sub? {
      UnfoldNode(s, m);
      RewriteAt(s, r, m.parent);
      if m.parent == Top(r) {
        TopSlot(mem, r, m.index);
        TopSlot(s.mem, r, m.index);
      }
    }
  }

  lemma Rewriting(s: Space, r: Frame)
    requires s.WF() && s.NoEmptyTable() && s.IsRoot(r) && r != s.cr3
    ensures var t := s.(mem := s.mem[r := SyncedTable(s.mem, r, s.cr3)]);
            t.WF() && t.NoEmptyTable() && SameMap(s, t) && SameTop(s, t)
  {
    var t := s.(mem := s.mem[r := SyncedTable(s.mem, r, s.cr3)]);
    SameTree(s, t);
    forall m | s.InTree(m)
      ensures Table(t.mem, m) == None || Table(t.mem, m) == Table(s.mem, m)
      ensures m != Top(r) && Table(t.mem, m).Some? ==> forall j: nat :: Slot(t.mem, m, j) == Slot(s.mem, m, j)
      ensures m.Root() != r ==> forall j: nat :: Slot(t.mem, m, j) == Slot(s.mem, m, j)
    {
      RewriteAt(s, r, m);
    }
    forall m, j: nat | t.HasSlot(m, j) ensures EntryOk(Slot(t.mem, m, j), m.Depth()) {
      assert s.InTree(m) && s.HasSlot(m, j);
      if m == Top(r) { TopSlot(t.mem, r, j); TopSlot(s.mem, r, j); }
    }
    forall q: nat | t.IsRoot(q) ensures IsTable(Word(t.mem, q, WINDOW)) && Word(t.mem, q, WINDOW).frame == q {
      assert s.IsRoot(q);
    }
    forall u: nat | IsPage(u)
      ensures Lookup(t.mem, s.cr3, u) == Lookup(s.mem, s.cr3, u) && InHuge(t.mem, s.cr3, u) == InHuge(s.mem, s.cr3, u)
    {
      PathInTree(s, u);
    }
  }

  /** The same for a frame that is no PML4 yet. */
  lemma RewritingForeign(s: Space, r: Frame)
    requires s.WF() && s.NoEmptyTable() && s.Foreign(r)
    ensures var t := s.(mem := s.mem[r := SyncedTable(s.mem, r, s.cr3)]);
            t.WF() && t.NoEmptyTable() && SameMap(s, t) && SameTop(s, t) && t.Foreign(r)
    ensures r != s.cr3 && !s.IsRoot(r)
  {
    var t := s.(mem := s.mem[r := SyncedTable(s.mem, r, s.cr3)]);
    SameTree(s, t);
    assert s.IsRoot(r) ==> s.InTree(Top(r)) && Table(s.mem, Top(r)) == Some(r);
    assert s.InTree(Top(s.cr3)) && Table(s.mem, Top(s.cr3)) == Some(s.cr3);
    forall m | s.InTree(m)
      ensures Table(t.mem, m) == Table(s.mem, m) && forall j: nat :: Slot(t.mem, m, j) == Slot(s.mem, m, j)
    {
      ForeignFrame(s, r, SyncedTable(s.mem, r, s.cr3), m);
    }
    forall m, j: nat | t.HasSlot(m, j) ensures EntryOk(Slot(t.mem, m, j), m.Depth()) {
      assert s.InTree(m) && s.HasSlot(m, j);
    }
    forall q: nat | t.IsRoot(q) ensures IsTable(Word(t.mem, q, WINDOW)) && Word(t.mem, q, WINDOW).frame == q {
      assert s.IsRoot(q);
    }
    forall u: nat | IsPage(u)
      ensures Lookup(t.mem, s.cr3, u) == Lookup(s.mem, s.cr3, u) && InHuge(t.mem, s.cr3, u) == InHuge(s.mem, s.cr3, u)
    {
      PathInTree(s, u);
    }
  }

  /** Where a sync may start: `r` is a PML4 that is not loaded, or an allocated frame that is to
      become one, and `v` is an unmapped kernel page. */
  ghost predicate SyncReady(s: Space, r: Frame, v: nat) {
    && s.WF() && s.NoEmptyTable()
    && Syncable(s, r)
    && IsPage(v) && I4(v) >= KERNEL_SLOT && Lookup(s.mem, s.cr3, v) == ZERO
    && Sync(s, r, v).Some?
  }

  lemma NotHuge(s: Space, v: nat)
    requires s.WF() && IsPage(v) && Lookup(s.mem, s.cr3, v) == ZERO
    ensures !InHuge(s.mem, s.cr3, v)
  {
  }

  /** `r` is a PML4 that is not loaded, or an allocated frame that may become one. */
  ghost predicate Syncable(s: Space, r: Frame)
    requires s.pm.Valid()
  {
    (s.IsRoot(r) && r != s.cr3) || s.Foreign(r)
  }

  /** PML4 `r` as a sync leaves it, with `last` in the one user slot that a sync does not clear. */
  ghost predicate Synced(mem: Mem, r: Frame, loaded: Frame, last: Entry) {
    && (forall j: nat :: j < KERNEL_SLOT - 1 ==> Word(mem, r, j) == ZERO)
    && Word(mem, r, KERNEL_SLOT - 1) == last
    && Word(mem, r, WINDOW) == Entry(r, {Present, Writable})
    && (forall j: nat :: KERNEL_SLOT <= j < PTE_COUNT && j != WINDOW ==> Word(mem, r, j) == Word(mem, loaded, j))
  }

  function Rewrite(s: Space, r: Frame): Space {
    s.(mem := s.mem[r := SyncedTable(s.mem, r, s.cr3)])
  }

  /** The first third of a sync: map the PML4. */
  lemma MappingIt(s: Space, r: Frame, v: nat)
    requires SyncReady(s, r, v)
    ensures var s1 := MapOne(s, v, r, TEMPORARY).value;
            && Follows(s, s1) && s1.NoEmptyTable() && TopGuarded(s, s1) && RootsStay(s, s1, r)
            && MapUpdated(s, s1, v, Entry(r, LeafFlags(TEMPORARY)))
            && TopExcept(s, s1, I4(v)) && IsTable(Word(s1.mem, s.cr3, I4(v)))
            && Syncable(s1, r) && Word(s1.mem, r, KERNEL_SLOT - 1) == Word(s.mem, r, KERNEL_SLOT - 1)
  {
    hide MapOne, TablesStay, I4, I3, I2, I1;
    NotHuge(s, v);
    MappingOne(s, v, r, TEMPORARY);
    MapTop(s, v, r, TEMPORARY);
    var s1 := MapOne(s, v, r, TEMPORARY).value;
    FollowsRoots(s, s1);
    RootsStayFollows(s, s1);
    if s.IsRoot(r) { assert RootsStay(s, s1, s.cr3); }
    assert Lookup(s1.mem, s.cr3, v) != ZERO && !InHuge(s1.mem, s.cr3, v);
    TopSlot(s1.mem, s.cr3, I4(v));
    MappedPath(s1, v);
  }

  /** A mapped page has all its tables. */
  lemma MappedPath(s: Space, v: nat)
    requires Lookup(s.mem, s.cr3, v) != ZERO && !InHuge(s.mem, s.cr3, v)
    ensures IsTable(Slot(s.mem, Top(s.cr3), I4(v)))
  {
    hide I4, I3, I2, I1;
    assert Table(s.mem, N3(s.cr3, v)).Some?;
    assert Slot(s.mem, N2(s.cr3, v), I2(v)) != ZERO;
    assert Table(s.mem, N2(s.cr3, v)).Some?;
    assert Slot(s.mem, N1(s.cr3, v), I3(v)) != ZERO;
    assert Table(s.mem, N1(s.cr3, v)).Some?;
  }

  /** The second: rewrite it. */
  lemma RewritingIt(s: Space, r: Frame)
    requires s.WF() && s.NoEmptyTable() && Syncable(s, r)
    ensures var t := Rewrite(s, r);
            && t.WF() && t.NoEmptyTable() && SameMap(s, t) && SameTop(s, t) && TopGuarded(s, t) && RootsStay(s, t, r)
            && Syncable(t, r) && Synced(t.mem, r, s.cr3, Word(s.mem, r, KERNEL_SLOT - 1))
  {
    hide I4, I3, I2, I1;
    var t := Rewrite(s, r);
    if s.IsRoot(r) && r != s.cr3 { Rewriting(s, r); } else { RewritingForeign(s, r); }
    forall j: nat ensures Slot(t.mem, Top(s.cr3), j) == Slot(s.mem, Top(s.cr3), j) {
      TopSlot(t.mem, s.cr3, j);
      TopSlot(s.mem, s.cr3, j);
    }
  }

  /** Some other page of the same PML4 slot is mapped. */
  ghost predicate Anchored(s: Space, v: nat) {
    exists u: nat :: IsPage(u) && u != v && I4(u) == I4(v) && Lookup(s.mem, s.cr3, u) != ZERO
  }

  /** The slot of page `v` in the loaded PML4 is taken. */
  predicate SlotTaken(s: Space, v: nat) { Word(s.mem, s.cr3, I4(v)) != ZERO }

  lemma AnchorTaken(s: Space, v: nat)
    requires Anchored(s, v) && IsPage(v)
    ensures Word(s.mem, s.cr3, I4(v)) != ZERO
  {
    var u: nat :| IsPage(u) && u != v && I4(u) == I4(v) && Lookup(s.mem, s.cr3, u) != ZERO;
    TopSlot(s.mem, s.cr3, I4(u));
    if Slot(s.mem, Top(s.cr3), I4(u)) == ZERO { NoPath(s, u); }
  }

  lemma NoPath(s: Space, u: nat)
    requires Slot(s.mem, Top(s.cr3), I4(u)) == ZERO
    ensures Lookup(s.mem, s.cr3, u) == ZERO
  {
    hide I4, I3, I2, I1;
    assert Table(s.mem, N1(s.cr3, u)) == None && Table(s.mem, N2(s.cr3, u)) == None;
    assert Slot(s.mem, N2(s.cr3, u), I2(u)) == ZERO && Table(s.mem, N3(s.cr3, u)) == None;
  }

  /** A slot below which no page is mapped is free. */
  lemma FreeSlot(s: Space, v: nat)
    requires s.WF() && s.NoEmptyTable() && IsPage(v) && Lookup(s.mem, s.cr3, v) == ZERO && !Anchored(s, v)
    ensures Word(s.mem, s.cr3, I4(v)) == ZERO
  {
    PathInTree(s, v);
    var n := N1(s.cr3, v);
    ShapeIsMinimal(s, n);
    TopSlot(s.mem, s.cr3, I4(v));
    hide I4, I3, I2, I1, PageTables.Space.NoEmptyTable, Lookup;
    if Table(s.mem, n).Some? {
      var u: nat :| Through(s, n, u);
      DepthOne(s, n, u);
      assert false;
    }
    assert s.HasSlot(Top(s.cr3), I4(v)) && EntryOk(Slot(s.mem, Top(s.cr3), I4(v)), 0);
  }

  /** For a page that is not mapped itself, that is so exactly if its slot is taken. */
  lemma AnchoredExact(s: Space, v: nat)
    requires s.WF() && s.NoEmptyTable() && IsPage(v) && Lookup(s.mem, s.cr3, v) == ZERO
    ensures Anchored(s, v) <==> SlotTaken(s, v)
  {
    hide I4, Lookup, IsPage, PageTables.Space.WF, PageTables.Space.NoEmptyTable;
    if Anchored(s, v) { AnchorTaken(s, v); } else { FreeSlot(s, v); }
  }

  /** The last: unmap it. The PML4 slot of the temporary page survives exactly if another page
      keeps its PDPT alive. */
  lemma UnmappingIt(s: Space, r: Frame, v: nat)
    requires s.WF() && s.NoEmptyTable() && Syncable(s, r) && IsPage(v) && !InHuge(s.mem, s.cr3, v)
    requires Lookup(s.mem, s.cr3, v) != ZERO && I4(v) >= KERNEL_SLOT
    ensures var t := UnmapOne(s, v, true).0;
            && Follows(s, t) && t.NoEmptyTable() && TopGuarded(s, t) && MapUpdated(s, t, v, ZERO)
            && Syncable(t, r) && (forall j: nat :: Word(t.mem, r, j) == Word(s.mem, r, j))
            && TopExcept(s, t, I4(v))
            && Word(t.mem, s.cr3, I4(v)) == (if Anchored(s, v) then Word(s.mem, s.cr3, I4(v)) else ZERO)
  {
    hide UnmapOne, TablesStay, I4, I3, I2, I1;
    UnmappingOne(s, v, true);
    UnmapTop(s, v);
    var t := UnmapOne(s, v, true).0;
    FollowsRoots(s, t);
    RootsStayFollows(s, t);
    if s.IsRoot(r) { assert RootsStay(s, t, s.cr3); }
    AnchorKeeps(s, t, v);
  }

  lemma AnchorKeeps(s: Space, t: Space, v: nat)
    requires s.WF() && t.WF() && t.NoEmptyTable() && t.cr3 == s.cr3 && IsPage(v) && MapUpdated(s, t, v, ZERO)
    ensures Table(t.mem, N1(s.cr3, v)).Some? <==> Anchored(s, v)
  {
    PathInTree(t, v);
    var n := N1(s.cr3, v);
    ShapeIsMinimal(t, n);
    hide I4, I3, I2, I1, PageTables.Space.WF, PageTables.Space.NoEmptyTable;
    if Table(t.mem, n).Some? {
      var u: nat :| Through(t, n, u);
      assert n == N1(s.cr3, u) by { DepthOne(t, n, u); }
      assert u != v && Lookup(s.mem, s.cr3, u) != ZERO;
    }
    if Anchored(s, v) {
      var u: nat :| IsPage(u) && u != v && I4(u) == I4(v) && Lookup(s.mem, s.cr3, u) != ZERO;
      assert Through(t, n, u);
    }
  }

  lemma DepthOne(s: Space, n: Node, u: nat)
    requires OnPath(s, n, u) && n.Depth() == 1
    ensures n == N1(s.cr3, u)
  {
    assert N2(s.cr3, u).Depth() == 2;
    assert N3(s.cr3, u).Depth() == 3;
  }

  /** A sync leaves every translation as it was, leaves the other PML4s alone, and makes the kernel
      half of `r` agree with the loaded one if and only if the PML4 slot of the temporary page was taken
      before, so that unmapping it does not take the PDPT of the slot away. */
  lemma Syncing(s: Space, r: Frame, v: nat)
    requires SyncReady(s, r, v)
    ensures var t := Sync(s, r, v).value;
            && t.WF() && t.NoEmptyTable() && t.cr3 == s.cr3 && TasksFollow(s, t) && TopGuarded(s, t)
            && SameMap(s, t) && RootsStay(s, t, r) && Syncable(t, r)
            && (AgreeKernel(t.mem, r, t.cr3) <==> SlotTaken(s, v))
            && (forall j: nat :: j < KERNEL_SLOT - 1 ==> Word(t.mem, r, j) == ZERO)
            && Word(t.mem, r, KERNEL_SLOT - 1) == Word(s.mem, r, KERNEL_SLOT - 1)
            && Word(t.mem, r, WINDOW) == Entry(r, {Present, Writable})
            && (t.pm.base == s.pm.base && t.pm.usable == s.pm.usable)
  {
    hide MapOne, UnmapOne, PageTables.Space.WF, PageTables.Space.NoEmptyTable, OthersStay, I4, I3, I2, I1;
    UpperEntries(s, v);
    MappingIt(s, r, v);
    var s1 := MapOne(s, v, r, TEMPORARY).value;
    RewritingIt(s1, r);
    var s2 := Rewrite(s1, r);
    assert Lookup(s1.mem, s.cr3, v).frame == r;
    SameAnchor(s, s2, v, Entry(r, LeafFlags(TEMPORARY)));
    UnmappingIt(s2, r, v);
    var t := Sync(s, r, v).value;
    assert t == UnmapOne(s2, v, true).0;
    GuardTrans(s, s1, s2);
    GuardTrans(s, s2, t);
    RootsStayFollows(s2, t);
    FollowsRoots(s, s1);
    RootsStayTrans(s, s2, t, r);
    assert IsTable(Word(s2.mem, s.cr3, I4(v)));
    SyncAgrees(s2, t, r, v);
    AnchoredExact(s, v);
  }

  lemma SameAnchor(s: Space, t: Space, v: nat, e: Entry)
    requires t.cr3 == s.cr3 && MapUpdated(s, t, v, e)
    ensures Anchored(t, v) == Anchored(s, v)
  {
    hide I4, I3, I2, I1, Lookup;
    if Anchored(s, v) {
      var u: nat :| IsPage(u) && u != v && I4(u) == I4(v) && Lookup(s.mem, s.cr3, u) != ZERO;
      assert Lookup(t.mem, t.cr3, u) != ZERO;
    }
    if Anchored(t, v) {
      var u: nat :| IsPage(u) && u != v && I4(u) == I4(v) && Lookup(t.mem, t.cr3, u) != ZERO;
      assert Lookup(s.mem, s.cr3, u) != ZERO;
    }
  }

  lemma RootsStayTrans(s: Space, t: Space, u: Space, r: Frame)
    requires u.cr3 == t.cr3 == s.cr3 && (forall f: nat :: s.IsRoot(f) == t.IsRoot(f))
    requires RootsStay(s, t, r) && RootsStay(t, u, r)
    ensures RootsStay(s, u, r)
  {
  }

  lemma SyncAgrees(s: Space, t: Space, r: Frame, v: nat)
    requires t.cr3 == s.cr3 && I4(v) >= KERNEL_SLOT && IsPage(v)
    requires exists last :: Synced(s.mem, r, s.cr3, last)
    requires forall j: nat :: Word(t.mem, r, j) == Word(s.mem, r, j)
    requires TopExcept(s, t, I4(v)) && IsTable(Word(s.mem, s.cr3, I4(v)))
    requires Word(t.mem, s.cr3, I4(v)) == if Anchored(s, v) then Word(s.mem, s.cr3, I4(v)) else ZERO
    ensures AgreeKernel(t.mem, r, t.cr3) <==> Anchored(s, v)
  {
    hide I3, I2, I1, Lookup;
    var i := I4(v);
    assert KERNEL_SLOT <= i < PTE_COUNT && i != WINDOW;
    if !Anchored(s, v) {
      assert Present in Word(t.mem, r, i).flags - {Accessed, Dirty};
      assert !SameEntry(Word(t.mem, r, i), Word(t.mem, t.cr3, i));
    }
  }

  /** Unless the slot of its temporary page was taken, a sync leaves `r` with an entry that leads to a frame which has
      been given back. */
  lemma SyncDangles(s: Space, r: Frame, v: nat)
    requires SyncReady(s, r, v) && !SlotTaken(s, v)
    ensures var t := Sync(s, r, v).value; var e := Word(t.mem, r, I4(v));
            t.pm.Valid() && IsTable(e) && t.pm.IsFree(e.frame)
  {
    hide MapOne, UnmapOne, PageTables.Space.WF, PageTables.Space.NoEmptyTable, OthersStay, I4, I3, I2, I1, Lookup,
      TopGuarded;
    UpperEntries(s, v);
    NotHuge(s, v);
    MappingIt(s, r, v);
    var s1 := MapOne(s, v, r, TEMPORARY).value;
    MapTop(s, v, r, TEMPORARY);
    AnchoredExact(s, v);
    assert s.pm.IsFree(Word(s1.mem, s.cr3, I4(v)).frame);
    RewritingIt(s1, r);
    var s2 := Rewrite(s1, r);
    assert Lookup(s1.mem, s.cr3, v).frame == r;
    SameAnchor(s, s2, v, Entry(r, LeafFlags(TEMPORARY)));
    UnmappingIt(s2, r, v);
    AnchorKeeps(s2, UnmapOne(s2, v, true).0, v);
    UnmapFrees(s2, v);
    var t := Sync(s, r, v).value;
    assert t == UnmapOne(s2, v, true).0;
    assert KERNEL_SLOT <= I4(v) < PTE_COUNT && I4(v) != WINDOW by { SlotBound(v); }
    assert Word(t.mem, r, I4(v)) == Word(s1.mem, s.cr3, I4(v));
  }

  lemma SlotBound(v: nat)
    requires IsPage(v)
    ensures I4(v) < PTE_COUNT && I4(v) != WINDOW
  {
  }
}
