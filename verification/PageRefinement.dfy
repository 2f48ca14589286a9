/** The page tables refine a flat map from pages to entries, and never hold an empty table. */
module PageRefinement {
  import opened Lists
  import opened PageBitmap
  import opened PageTables
  import opened PageSteps
  import opened PageMap

  /** `t` differs from `s` in the tables of the loaded address space and in allocation only; tasks
      may have gone stale. */
  ghost predicate Follows(s: Space, t: Space) {
    && t.WF()
    && t.cr3 == s.cr3
    && t.pm.base == s.pm.base && t.pm.usable == s.pm.usable
    && TasksFollow(s, t)
    && OthersStay(s, t)
  }

  ghost predicate TasksFollow(s: Space, t: Space) {
    && |t.tasks| == |s.tasks|
    && forall i :: 0 <= i < |s.tasks| ==>
         t.tasks[i] == s.tasks[i]
         || (t.tasks[i] == s.tasks[i].(stale := true) && s.tasks[i].queued && s.tasks[i].vmm != s.cr3)
  }

  /** The address spaces that are not loaded are untouched: their PML4s and the tables of their
      user halves. */
  ghost predicate OthersStay(s: Space, t: Space) {
    forall m, j: nat :: s.InTree(m) && m.Root() != s.cr3 ==> Slot(t.mem, m, j) == Slot(s.mem, m, j)
  }

  lemma FollowsRoots(s: Space, t: Space)
    requires t.cr3 == s.cr3 && TasksFollow(s, t)
    ensures SameRoots(s, t)
  {
    forall f: nat ensures s.IsRoot(f) == t.IsRoot(f) {
      if s.IsRoot(f) && f != s.cr3 {
        var i :| 0 <= i < |s.tasks| && s.tasks[i].vmm == f;
        assert t.tasks[i] in t.tasks && t.tasks[i].vmm == f;
      }
      if t.IsRoot(f) && f != s.cr3 {
        var i :| 0 <= i < |t.tasks| && t.tasks[i].vmm == f;
        assert s.tasks[i] in s.tasks && s.tasks[i].vmm == f;
      }
    }
  }

  lemma Alerting(s: Space)
    requires s.WF()
    ensures Follows(s, Alert(s)) && Undisturbed(s, Alert(s)) && Alert(s).mem == s.mem && Alert(s).pm == s.pm
  {
    FollowsRoots(s, Alert(s));
    SameTree(s, Alert(s));
  }

  /** The nodes on the path of a page lie in the loaded address space. */
  lemma PathInTree(s: Space, v: nat)
    requires IsPage(v)
    ensures s.HasSlot(Top(s.cr3), I4(v))
    ensures s.InTree(N1(s.cr3, v)) && s.HasSlot(N1(s.cr3, v), I3(v))
    ensures s.InTree(N2(s.cr3, v)) && s.HasSlot(N2(s.cr3, v), I2(v))
    ensures s.InTree(N3(s.cr3, v)) && s.HasSlot(N3(s.cr3, v), I1(v))
    ensures N1(s.cr3, v).Depth() == 1 && N2(s.cr3, v).Depth() == 2 && N3(s.cr3, v).Depth() == 3
    ensures N1(s.cr3, v).Root() == N2(s.cr3, v).Root() == N3(s.cr3, v).Root() == s.cr3
  {
    hide I4, I3, I2, I1;
    PathShape(s.cr3, v);
    assert s.InTree(Top(s.cr3)) && s.HasSlot(Top(s.cr3), I4(v));
    assert s.InTree(N1(s.cr3, v)) && s.HasSlot(N1(s.cr3, v), I3(v));
    assert s.InTree(N2(s.cr3, v)) && s.HasSlot(N2(s.cr3, v), I2(v));
  }

  lemma PathShape(r: Frame, v: nat)
    ensures I4(v) < PTE_COUNT && I3(v) < PTE_COUNT && I2(v) < PTE_COUNT && I1(v) < PTE_COUNT
    ensures N1(r, v).Depth() == 1 && N2(r, v).Depth() == 2 && N3(r, v).Depth() == 3
    ensures N1(r, v).Root() == N2(r, v).Root() == N3(r, v).Root() == r
  {
    var a, b, c := N1(r, v), N2(r, v), N3(r, v);
    assert Top(r).Root() == r && Top(r).Depth() == 0;
    assert a.Root() == Top(r).Root() && a.Depth() == Top(r).Depth() + 1;
    assert b.Root() == a.Root() && b.Depth() == a.Depth() + 1;
    assert c.Root() == b.Root() && c.Depth() == b.Depth() + 1;
  }

  /** The first two entries on the path of a page are not 2 MiB entries. */
  lemma UpperEntries(s: Space, v: nat)
    requires s.WF() && IsPage(v)
    ensures s.pm.Valid()
    ensures Huge !in Slot(s.mem, Top(s.cr3), I4(v)).flags && Huge !in Slot(s.mem, N1(s.cr3, v), I3(v)).flags
  {
    PathInTree(s, v);
  }

  /** Every table of `s` is still where it was. */
  ghost predicate TablesStay(s: Space, t: Space) {
    forall m :: s.InTree(m) && Table(s.mem, m).Some? ==> Table(t.mem, m) == Table(s.mem, m)
  }

  /** The translation of every page of the loaded address space, and its being huge, is as before. */
  ghost predicate SameMap(s: Space, t: Space) {
    forall u: nat :: IsPage(u) ==>
      Lookup(t.mem, s.cr3, u) == Lookup(s.mem, s.cr3, u) && InHuge(t.mem, s.cr3, u) == InHuge(s.mem, s.cr3, u)
  }

  /** The translation of page `v` becomes `e`; all others are as before. */
  ghost predicate MapUpdated(s: Space, t: Space, v: nat, e: Entry) {
    forall u: nat :: IsPage(u) ==>
      Lookup(t.mem, s.cr3, u) == (if u == v then e else Lookup(s.mem, s.cr3, u))
          && InHuge(t.mem, s.cr3, u) == InHuge(s.mem, s.cr3, u)
  }

  /** Changing a slot that is no page entry, and stays none, keeps the flat map. */
  lemma InnerStep(s: Space, t: Space, n: Node, i: nat, e: Entry)
    requires s.WF() && Stepped(s, t, n, i, e) && n.Depth() < 3
    requires Huge !in e.flags && Huge !in Slot(s.mem, n, i).flags
    ensures SameMap(s, t)
  {
    forall u: nat | IsPage(u)
      ensures Lookup(t.mem, s.cr3, u) == Lookup(s.mem, s.cr3, u) && InHuge(t.mem, s.cr3, u) == InHuge(s.mem, s.cr3, u)
    {
      PathInTree(s, u);
    }
  }

  /** Changing a last-level slot changes the map at one page. */
  lemma LeafStep(s: Space, t: Space, v: nat, e: Entry)
    requires s.WF() && IsPage(v) && Stepped(s, t, N3(s.cr3, v), I1(v), e) && !InHuge(s.mem, s.cr3, v)
    ensures MapUpdated(s, t, v, e)
  {
    forall u: nat | IsPage(u)
      ensures Lookup(t.mem, s.cr3, u) == (if u == v then e else Lookup(s.mem, s.cr3, u))
      ensures InHuge(t.mem, s.cr3, u) == InHuge(s.mem, s.cr3, u)
    {
      PathInTree(s, u);
      PathInTree(s, v);
      if u != v && N3(s.cr3, u) == N3(s.cr3, v) && I1(u) == I1(v) {
        IndicesDetermine(u, v);
      }
    }
  }

  lemma EnsuringTable(s: Space, n: Node, i: nat, flags: set<Flag>)
    requires s.WF() && s.HasSlot(n, i) && n.Depth() < 3 && Table(s.mem, n).Some?
    requires Huge !in Slot(s.mem, n, i).flags && IsTable(Entry(0, flags)) && n.Root() == s.cr3
    requires EnsureTable(s, n, i, flags).Some?
    ensures var t := EnsureTable(s, n, i, flags).value;
            && Stepped(s, t, n, i, Slot(t.mem, n, i))
            && IsTable(Slot(t.mem, n, i))
            && TablesStay(s, t) && SameMap(s, t) && Follows(s, t) && Undisturbed(s, t)
            && (Slot(s.mem, n, i) != ZERO ==>
                  Slot(t.mem, n, i) == Entry(Slot(s.mem, n, i).frame, Slot(s.mem, n, i).flags + flags))
            && flags <= Slot(t.mem, n, i).flags
  {
    var e := Slot(s.mem, n, i);
    var t := EnsureTable(s, n, i, flags).value;
    if e == ZERO {
      var g := FirstFit(s.pm, 1, 0).value;
      assert s.pm.IsFree(g);
      Growing(s, n, i, g, flags);
      InnerStep(s, t, n, i, Entry(g, flags));
    } else {
      Retag(s, n, i, Entry(e.frame, e.flags + flags));
      InnerStep(s, t, n, i, Entry(e.frame, e.flags + flags));
    }
  }

  lemma FollowsTrans(s: Space, t: Space, u: Space)
    requires Follows(s, t) && Follows(t, u)
    ensures Follows(s, u)
  {
    FollowsRoots(s, t);
    SameTree(s, t);
  }

  lemma StayTrans(s: Space, t: Space, u: Space)
    requires Follows(s, t) && Follows(t, u) && TablesStay(s, t) && TablesStay(t, u)
    ensures TablesStay(s, u)
  {
    FollowsRoots(s, t);
    SameTree(s, t);
  }

  /** Every queued task whose PML4 is not loaded will sync before it runs. */
  ghost predicate Alerted(s: Space) {
    forall i :: 0 <= i < |s.tasks| && s.tasks[i].queued && s.tasks[i].vmm != s.cr3 ==> s.tasks[i].stale
  }

  /** Equal up to the bits that the processor sets by itself. */
  predicate SameEntry(a: Entry, b: Entry) {
    a == b || (Present in a.flags && a.frame == b.frame && a.flags - {Accessed, Dirty} == b.flags - {Accessed, Dirty})
  }

  lemma SameEntryFacts(a: Entry, b: Entry, c: Entry)
    requires SameEntry(a, b)
    ensures SameEntry(b, a) && (SameEntry(b, c) ==> SameEntry(a, c))
    ensures a.frame == b.frame && IsTable(a) == IsTable(b) && (a == ZERO <==> b == ZERO)
    ensures forall d: nat :: EntryOk(a, d) == EntryOk(b, d)
  {
    assert Present in a.flags <==> Present in a.flags - {Accessed, Dirty};
    assert Present in b.flags <==> Present in b.flags - {Accessed, Dirty};
    assert Huge in a.flags <==> Huge in a.flags - {Accessed, Dirty};
    assert Huge in b.flags <==> Huge in b.flags - {Accessed, Dirty};
  }

  /** The loaded PML4 changed only if the other tasks were told. */
  ghost predicate TopGuarded(s: Space, t: Space) {
    Alerted(t) || forall i: nat :: s.HasSlot(Top(s.cr3), i) ==>
            SameEntry(Slot(t.mem, Top(s.cr3), i), Slot(s.mem, Top(s.cr3), i))
  }

  lemma GuardTrans(s: Space, t: Space, u: Space)
    requires u.cr3 == t.cr3 == s.cr3 && TasksFollow(s, t) && TasksFollow(t, u)
    requires TopGuarded(s, t) && TopGuarded(t, u)
    ensures TopGuarded(s, u)
  {
    if !Alerted(u) {
      assert !Alerted(t);
      forall i: nat | s.HasSlot(Top(s.cr3), i)
        ensures SameEntry(Slot(u.mem, Top(s.cr3), i), Slot(s.mem, Top(s.cr3), i))
      {
        assert t.HasSlot(Top(t.cr3), i);
      }
    }
  }

  /** A step away from the PML4 leaves it alone. */
  lemma InnerGuard(s: Space, t: Space, n: Node, i: nat, e: Entry)
    requires Stepped(s, t, n, i, e) && n.Sub?
    ensures TopGuarded(s, t)
  {
  }

  /** Tables off the path of `v` are not empty. */
  ghost predicate EmptyOnlyOn(s: Space, v: nat) {
    forall n :: s.InTree(n) && n.Sub? && Table(s.mem, n).Some? && n !in [N1(s.cr3, v), N2(s.cr3, v), N3(s.cr3, v)]
      ==> !s.AllZero(n)
  }

  /** A step on the path of `v` empties no table off the path. */
  lemma StepOnPath(s: Space, t: Space, n: Node, i: nat, e: Entry, v: nat)
    requires s.WF() && Stepped(s, t, n, i, e) && s.HasSlot(n, i) && EmptyOnlyOn(s, v)
    requires n in [Top(s.cr3), N1(s.cr3, v), N2(s.cr3, v), N3(s.cr3, v)]
    requires n.Depth() < 3 ==> Sub(n, i) in [N1(s.cr3, v), N2(s.cr3, v), N3(s.cr3, v)]
    ensures EmptyOnlyOn(t, v)
  {
    SameTree(s, t);
    forall m | t.InTree(m) && m.Sub? && Table(t.mem, m).Some? && m !in [N1(s.cr3, v), N2(s.cr3, v), N3(s.cr3, v)]
      ensures !t.AllZero(m)
    {
      NotBelowLeaf(s, m, Sub(Sub(Sub(Sub(Top(0), 0), 0), 0), 0));
      assert m != Sub(n, i);
      var j :| 0 <= j < PTE_COUNT && Slot(s.mem, m, j) != ZERO;
      assert s.HasSlot(m, j);
      assert Slot(t.mem, m, j) != ZERO;
    }
  }

  lemma EnsuringTop(s: Space, v: nat, flags: set<Flag>)
    requires s.WF() && IsPage(v) && IsTable(Entry(0, flags)) && flags !! {Accessed, Dirty}
    requires EnsureTop(s, I4(v), flags).Some?
    ensures var t := EnsureTop(s, I4(v), flags).value;
            && Follows(s, t) && TablesStay(s, t) && SameMap(s, t) && TopGuarded(s, t) && Undisturbed(s, t)
            && Table(t.mem, N1(s.cr3, v)).Some?
            && (EmptyOnlyOn(s, v) ==> EmptyOnlyOn(t, v))
  {
    hide Undisturbed;
    PathInTree(s, v);
    var n, i := Top(s.cr3), I4(v);
    var e := Slot(s.mem, n, i);
    EnsuringTable(s, n, i, flags);
    var u := EnsureTable(s, n, i, flags).value;
    var t := EnsureTop(s, i, flags).value;
    if EmptyOnlyOn(s, v) {
      StepOnPath(s, u, n, i, Slot(u.mem, n, i), v);
    }
    if e == ZERO || e.flags - {Accessed, Dirty} != flags {
      Alerting(u);
      FollowsRoots(u, t);
      SameTree(u, t);
      UndisturbedTrans(s, u, t);
    } else {
      assert (e.flags + flags) - {Accessed, Dirty} == e.flags - {Accessed, Dirty};
      assert SameEntry(Slot(u.mem, n, i), e);
    }
  }

  lemma EnsuringPath(s: Space, v: nat, flags: set<Flag>)
    requires s.WF() && IsPage(v) && IsTable(Entry(0, flags)) && flags !! {Accessed, Dirty}
    requires !InHuge(s.mem, s.cr3, v) && EnsurePath(s, v, flags).Some?
    ensures var t := EnsurePath(s, v, flags).value;
            && Follows(s, t) && TablesStay(s, t) && SameMap(s, t) && TopGuarded(s, t) && Undisturbed(s, t)
            && IsTable(Slot(t.mem, N1(s.cr3, v), I3(v))) && IsTable(Slot(t.mem, N2(s.cr3, v), I2(v)))
            && (EmptyOnlyOn(s, v) ==> EmptyOnlyOn(t, v))
  {
    hide Undisturbed, EnsureTable, EnsureTop, PageTables.Space.NoEmptyTable, OthersStay;
    var s1 := EnsureTop(s, I4(v), flags).value;
    EnsuringTop(s, v, flags);
    PathInTree(s1, v);
    EnsuringTable(s1, N1(s.cr3, v), I3(v), flags);
    var s2 := EnsureTable(s1, N1(s.cr3, v), I3(v), flags).value;
    InnerGuard(s1, s2, N1(s.cr3, v), I3(v), Slot(s2.mem, N1(s.cr3, v), I3(v)));
    PathInTree(s2, v);
    EnsuringTable(s2, N2(s.cr3, v), I2(v), flags);
    var t := EnsureTable(s2, N2(s.cr3, v), I2(v), flags).value;
    InnerGuard(s2, t, N2(s.cr3, v), I2(v), Slot(t.mem, N2(s.cr3, v), I2(v)));
    if EmptyOnlyOn(s, v) {
      StepOnPath(s1, s2, N1(s.cr3, v), I3(v), Slot(s2.mem, N1(s.cr3, v), I3(v)), v);
      StepOnPath(s2, t, N2(s.cr3, v), I2(v), Slot(t.mem, N2(s.cr3, v), I2(v)), v);
    }
    FollowsTrans(s, s1, s2);
    FollowsTrans(s, s2, t);
    StayTrans(s, s1, s2);
    StayTrans(s, s2, t);
    GuardTrans(s, s1, s2);
    GuardTrans(s, s2, t);
    UndisturbedTrans(s, s1, s2);
    UndisturbedTrans(s, s2, t);
  }

  /** Writing the last-level entry of a page whose path exists. */
  lemma MappingLeaf(s: Space, v: nat, e: Entry)
    requires s.WF() && IsPage(v) && EntryOk(e, 3) && e != ZERO
    requires IsTable(Slot(s.mem, N1(s.cr3, v), I3(v))) && IsTable(Slot(s.mem, N2(s.cr3, v), I2(v)))
    ensures var t := Write(s, N3(s.cr3, v), I1(v), e);
            && Follows(s, t) && TablesStay(s, t) && TopGuarded(s, t) && Undisturbed(s, t) && MapUpdated(s, t, v, e)
            && (EmptyOnlyOn(s, v) ==> t.NoEmptyTable())
  {
    hide Undisturbed;
    var n, i := N3(s.cr3, v), I1(v);
    PathInTree(s, v);
    var t := Write(s, n, i, e);
    SetLeaf(s, n, i, e);
    LeafStep(s, t, v, e);
    InnerGuard(s, t, n, i, e);
    if EmptyOnlyOn(s, v) {
      StepOnPath(s, t, n, i, e, v);
      assert Slot(t.mem, n, i) != ZERO;
      assert Slot(t.mem, N2(s.cr3, v), I2(v)) != ZERO && Slot(t.mem, N1(s.cr3, v), I3(v)) != ZERO;
    }
  }

  /** Mapping one page changes the flat map at that page and nowhere else. */
  lemma MappingOne(s: Space, v: nat, f: Frame, attr: Attr)
    requires s.WF() && IsPage(v) && !InHuge(s.mem, s.cr3, v) && MapOne(s, v, f, attr).Some?
    ensures var t := MapOne(s, v, f, attr).value;
            && Follows(s, t) && TablesStay(s, t) && TopGuarded(s, t) && Undisturbed(s, t)
            && MapUpdated(s, t, v, Entry(f, LeafFlags(attr)))
            && (s.NoEmptyTable() ==> t.NoEmptyTable())
  {
    hide Undisturbed, EnsurePath;
    var u := EnsurePath(s, v, TableFlags(attr)).value;
    EnsuringPath(s, v, TableFlags(attr));
    var t := MapOne(s, v, f, attr).value;
    MappingLeaf(u, v, Entry(f, LeafFlags(attr)));
    FollowsTrans(s, u, t);
    StayTrans(s, u, t);
    GuardTrans(s, u, t);
    UndisturbedTrans(s, u, t);
  }

  // ---- unmapping

  /** If unmapping page `v` gives a frame back, that frame holds no table. */
  ghost predicate FreeSafeAt(s: Space, v: nat, save: bool) {
    var e := Lookup(s.mem, s.cr3, v);
    FromPmm in e.flags && !save ==> s.NotTable(e.frame)
  }

  lemma FreeingFrame(s: Space, f: Frame)
    requires s.WF() && s.NotTable(f)
    ensures Follows(s, s.(pm := FreeOne(s.pm, f)))
  {
    var t := s.(pm := FreeOne(s.pm, f));
    SameTree(s, t);
  }

  /** The table, if it is there, is not empty. */
  ghost predicate Tidy(s: Space, n: Node) {
    Table(s.mem, n).Some? ==> !s.AllZero(n)
  }

  ghost predicate OnPath(s: Space, n: Node, v: nat) {
    n in [N1(s.cr3, v), N2(s.cr3, v), N3(s.cr3, v)]
  }

  lemma Collapsing(s: Space, n: Node, i: nat, v: nat)
    requires s.WF() && s.HasSlot(n, i) && n.Depth() < 3 && IsTable(Slot(s.mem, n, i))
             && Huge !in Slot(s.mem, n, i).flags
    requires (n == Top(s.cr3) || OnPath(s, n, v)) && n.Root() == s.cr3
    requires OnPath(s, Sub(n, i), v)
    ensures var t := Collapse(s, n, i);
            && Follows(s, t) && SameMap(s, t) && TablesStay(t, s) && Undisturbed(s, t)
            && Tidy(t, Sub(n, i)) && (forall m :: s.InTree(m) && m != Sub(n, i) ==> Table(t.mem, m) == Table(s.mem, m))
            && (t == s || Table(t.mem, Sub(n, i)) == None)
            && (n.Sub? ==> TopGuarded(s, t))
            && (EmptyOnlyOn(s, v) ==> EmptyOnlyOn(t, v))
  {
    hide Undisturbed;
    UndisturbedSelf(s);
    var c := Sub(n, i);
    if s.AllZero(c) {
      var t := Prune(s, n, i);
      Pruning(s, n, i);
      InnerStep(s, t, n, i, ZERO);
      SameTree(s, t);
      if EmptyOnlyOn(s, v) { StepOnPath(s, t, n, i, ZERO, v); }
    }
  }

  lemma CollapsingPath(s: Space, v: nat)
    requires s.WF() && IsPage(v) && EmptyOnlyOn(s, v) && Table(s.mem, N3(s.cr3, v)).Some?
    ensures var t := CollapsePath(s, v);
            && Follows(s, t) && SameMap(s, t) && TablesStay(t, s) && TopGuarded(s, t) && Undisturbed(s, t)
            && t.NoEmptyTable()
  {
    hide Undisturbed;
    var r := s.cr3;
    PathInTree(s, v);
    Collapsing(s, N2(r, v), I2(v), v);
    var s3 := Collapse(s, N2(r, v), I2(v));
    PathInTree(s3, v);
    assert Table(s3.mem, N2(r, v)).Some?;
    Collapsing(s3, N1(r, v), I3(v), v);
    var s2 := Collapse(s3, N1(r, v), I3(v));
    PathInTree(s2, v);
    assert Table(s2.mem, N1(r, v)).Some?;
    assert Tidy(s2, N3(r, v)) by {
      if s2 != s3 { assert Slot(s2.mem, N2(r, v), I2(v)) == ZERO; }
    }
    FollowsTrans(s, s3, s2);
    GoneTrans(s, s3, s2);
    GuardTrans(s, s3, s2);
    UndisturbedTrans(s, s3, s2);
    CollapsingTop(s2, v);
    var t := CollapsePath(s, v);
    UndisturbedTrans(s, s2, t);
    FollowsTrans(s, s2, t);
    GoneTrans(s, s2, t);
    GuardTrans(s, s2, t);
  }

  lemma GoneTrans(s: Space, t: Space, u: Space)
    requires Follows(s, t) && Follows(t, u) && TablesStay(t, s) && TablesStay(u, t)
    ensures TablesStay(u, s)
  {
    FollowsRoots(t, u);
    SameTree(t, u);
  }

  lemma CollapsingTop(s: Space, v: nat)
    requires s.WF() && IsPage(v) && EmptyOnlyOn(s, v) && Table(s.mem, N1(s.cr3, v)).Some?
    requires Tidy(s, N2(s.cr3, v)) && Tidy(s, N3(s.cr3, v))
    ensures var t := CollapseTop(s, v);
            && Follows(s, t) && SameMap(s, t) && TablesStay(t, s) && TopGuarded(s, t) && Undisturbed(s, t)
            && t.NoEmptyTable()
  {
    hide Undisturbed;
    var r := s.cr3;
    PathInTree(s, v);
    Collapsing(s, Top(r), I4(v), v);
    var u := Collapse(s, Top(r), I4(v));
    var t := CollapseTop(s, v);
    if s.AllZero(N1(r, v)) {
      assert Slot(u.mem, N1(r, v), I3(v)) == ZERO;
      assert Table(u.mem, N2(r, v)) == None;
      assert Slot(u.mem, N2(r, v), I2(v)) == ZERO;
      assert Table(u.mem, N3(r, v)) == None;
      Alerting(u);
      FollowsRoots(u, t);
      SameTree(u, t);
      FollowsTrans(s, u, t);
      UndisturbedTrans(s, u, t);
    }
    assert Tidy(t, N1(r, v)) && Tidy(t, N2(r, v)) && Tidy(t, N3(r, v));
  }

  /** Unmapping one mapped page removes that page from the flat map and nothing else, and leaves
      no empty table behind. */
  lemma UnmappingOne(s: Space, v: nat, save: bool)
    requires s.WF() && s.NoEmptyTable() && IsPage(v) && !InHuge(s.mem, s.cr3, v) && FreeSafeAt(s, v, save)
    ensures var (t, ok) := UnmapOne(s, v, save);
            && Follows(s, t) && TablesStay(t, s) && TopGuarded(s, t) && t.NoEmptyTable()
            && (if ok then MapUpdated(s, t, v, ZERO) else t == s)
            && (save ==> Undisturbed(s, t))
            && (ok <==> var e := Lookup(s.mem, s.cr3, v);
                        e != ZERO && (FromPmm in e.flags && !save ==> s.pm.IsUsed(e.frame)))
  {
    hide Undisturbed, CollapsePath, EmptyOnlyOn, TopGuarded, TablesStay;
    UndisturbedSelf(s);
    StaySelf(s);
    var e := Lookup(s.mem, s.cr3, v);
    var (t, ok) := UnmapOne(s, v, save);
    if ok {
      if FromPmm in e.flags && !save {
        var u := s.(pm := FreeOne(s.pm, e.frame));
        FreeingFrame(s, e.frame);
        FollowsRoots(s, u);
        SameTree(s, u);
        UnmappingMapped(u, v);
        FollowsTrans(s, u, t);
        GoneTrans(s, u, t);
        GuardTrans(s, u, t);
      } else {
        UnmappingMapped(s, v);
      }
    }
  }

  lemma StaySelf(s: Space)
    requires s.WF()
    ensures TablesStay(s, s) && TopGuarded(s, s)
    ensures forall b: Bitmap :: TablesStay(s.(pm := b), s) && TopGuarded(s, s.(pm := b))
  {
    forall b: Bitmap ensures TablesStay(s.(pm := b), s) { SameTree(s, s.(pm := b)); }
  }

  /** Clearing the entry of a mapped page and collapsing its path. */
  lemma UnmappingMapped(s: Space, v: nat)
    requires s.WF() && s.NoEmptyTable() && IsPage(v) && !InHuge(s.mem, s.cr3, v) && Lookup(s.mem, s.cr3, v) != ZERO
    ensures var t := CollapsePath(Write(s, N3(s.cr3, v), I1(v), ZERO), v);
            && Follows(s, t) && TablesStay(t, s) && TopGuarded(s, t) && Undisturbed(s, t)
            && t.NoEmptyTable() && MapUpdated(s, t, v, ZERO)
  {
    hide Undisturbed, CollapsePath, EmptyOnlyOn;
    PathInTree(s, v);
    ClearingLeaf(s, v);
    var w := Write(s, N3(s.cr3, v), I1(v), ZERO);
    CollapsingPath(w, v);
    var t := CollapsePath(w, v);
    FollowsTrans(s, w, t);
    GoneTrans(s, w, t);
    GuardTrans(s, w, t);
    UndisturbedTrans(s, w, t);
  }

  lemma ClearingLeaf(s: Space, v: nat)
    requires s.WF() && s.NoEmptyTable() && IsPage(v) && !InHuge(s.mem, s.cr3, v) && Table(s.mem, N3(s.cr3, v)).Some?
    ensures var t := Write(s, N3(s.cr3, v), I1(v), ZERO);
            && Follows(s, t) && TablesStay(t, s) && TopGuarded(s, t) && MapUpdated(s, t, v, ZERO)
            && Undisturbed(s, t) && EmptyOnlyOn(t, v) && Table(t.mem, N3(s.cr3, v)).Some?
  {
    hide Undisturbed;
    var n, i := N3(s.cr3, v), I1(v);
    PathInTree(s, v);
    var t := Write(s, n, i, ZERO);
    SetLeaf(s, n, i, ZERO);
    LeafStep(s, t, v, ZERO);
    InnerGuard(s, t, n, i, ZERO);
    StepOnPath(s, t, n, i, ZERO, v);
    SameTree(s, t);
    NotBelowLeaf(s, n, Sub(n, i));
  }
}
