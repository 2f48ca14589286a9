/** Every task has its own PML4, and the kernel halves of all of them are kept in agreement lazily:
    a change of the loaded PML4 marks the other tasks as stale, and a stale PML4 is synced before
    it is loaded (kernel/mm/vmm.c, kernel/sched/task.c `task_switch`). The regions of the task are then
    mapped, in the kernel half too. */
module Coherence {
  import opened Lists
  import opened PageBitmap
  import opened PageTables
  import opened PageSteps
  import opened PageMap
  import opened PageRefinement
  import opened PageRanges
  import opened ExactMaps
  import opened Regions
  import opened KernelPages
  import opened TaskRegions
  import opened PageSync
  import opened KernelTop

  // ---- the kernel half seen through another PML4

  /** The same place below PML4 `r`. */
  function Rebase(n: Node, r: Frame): (m: Node)
    ensures m.Depth() == n.Depth() && m.Root() == r && m.Sub? == n.Sub?
  {
    match n
    case Top(_) => Top(r)
    case Sub(m, i) => Sub(Rebase(m, r), i)
  }

  /** A place in the kernel half of its PML4. */
  predicate InKernel(n: Node) {
    n.Sub? && if n.parent.Top? then KERNEL_SLOT <= n.index < PTE_COUNT && n.index != WINDOW else InKernel(n.parent)
  }

  lemma {:induction false} RebaseBack(n: Node, r: Frame)
    ensures Rebase(Rebase(n, r), n.Root()) == n
  {
    if n.Sub? { RebaseBack(n.parent, r); }
  }

  /** Through PML4s that agree, the kernel half leads to the same tables. */
  lemma {:induction false} RebaseTable(mem: Mem, n: Node, b: Frame)
    requires AgreeKernel(mem, n.Root(), b) && InKernel(n)
    ensures Table(mem, Rebase(n, b)) == Table(mem, n) && forall j: nat :: Slot(mem, Rebase(n, b), j) == Slot(mem, n, j)
  {
    if n.parent.Top? {
      TopSlot(mem, n.Root(), n.index);
      TopSlot(mem, b, n.index);
      SameEntryFacts(Word(mem, n.Root(), n.index), Word(mem, b, n.index), ZERO);
      assert Rebase(n, b) == Sub(Top(b), n.index) && n == Sub(Top(n.Root()), n.index);
    } else {
      RebaseTable(mem, n.parent, b);
    }
  }

  /** After loading PML4 `r`, where node `n` was before. */
  function Before(s: Space, r: Frame, n: Node): Node {
    if n.Root() == r && InKernel(n) then Rebase(n, s.cr3) else n
  }

  function Load(s: Space, r: Frame): Space { s.(cr3 := r) }

  lemma {:induction false} BeforeInTree(s: Space, r: Frame, n: Node)
    requires s.IsRoot(r) && Load(s, r).InTree(n)
    ensures s.InTree(Before(s, r, n))
    ensures n.Sub? && n.Root() != r ==> !InKernel(n)
  {
    var t := Load(s, r);
    if n.Sub? {
      UnfoldNode(t, n);
      BeforeInTree(s, r, n.parent);
      if n.parent.Top? {
        assert s.IsRoot(n.parent.root) && s.InTree(Top(s.cr3));
        assert n.Root() == r && InKernel(n) ==> Rebase(n, s.cr3) == Sub(Top(s.cr3), n.index);
        assert s.HasSlot(Top(s.cr3), n.index) || !InKernel(n);
      } else {
        assert Before(s, r, n) == Sub(Before(s, r, n.parent), n.index);
        assert s.HasSlot(Before(s, r, n.parent), n.index);
      }
    }
  }

  lemma BeforeSame(s: Space, r: Frame, n: Node)
    requires s.IsRoot(r) && AgreeKernel(s.mem, r, s.cr3) && Load(s, r).InTree(n)
    ensures s.InTree(Before(s, r, n)) && Before(s, r, n).Depth() == n.Depth() && Before(s, r, n).Sub? == n.Sub?
    ensures Table(s.mem, Before(s, r, n)) == Table(s.mem, n)
    ensures forall j: nat :: Slot(s.mem, Before(s, r, n), j) == Slot(s.mem, n, j)
  {
    BeforeInTree(s, r, n);
    if n.Root() == r && InKernel(n) { RebaseTable(s.mem, n, s.cr3); }
  }

  lemma BeforeInjective(s: Space, r: Frame, n: Node, m: Node)
    requires s.IsRoot(r) && Load(s, r).InTree(n) && Load(s, r).InTree(m) && Before(s, r, n) == Before(s, r, m)
    ensures n == m
  {
    BeforeInTree(s, r, n);
    BeforeInTree(s, r, m);
    RebaseBack(n, s.cr3);
    RebaseBack(m, s.cr3);
    if n.Root() == r && InKernel(n) { RebaseKernel(n, s.cr3); }
    if m.Root() == r && InKernel(m) { RebaseKernel(m, s.cr3); }
  }

  lemma {:induction false} RebaseKernel(n: Node, r: Frame)
    requires InKernel(n)
    ensures InKernel(Rebase(n, r))
  {
    if n.parent.Sub? { RebaseKernel(n.parent, r); }
  }

  lemma LoadedTables(s: Space, r: Frame)
    requires s.WF() && s.IsRoot(r) && AgreeKernel(s.mem, r, s.cr3)
    ensures var t := Load(s, r);
            && (forall n :: t.InTree(n) && Table(t.mem, n).Some? ==>
                  IsFrame(t.mem, Table(t.mem, n).value) && !t.pm.IsFree(Table(t.mem, n).value))
            && (forall n, m :: t.InTree(n) && t.InTree(m) && Table(t.mem, n).Some? && Table(t.mem, n) == Table(t.mem, m)
                  ==> n == m)
  {
    var t := Load(s, r);
    forall n | t.InTree(n)
      ensures s.InTree(Before(s, r, n)) && Table(s.mem, Before(s, r, n)) == Table(s.mem, n)
    {
      BeforeSame(s, r, n);
    }
    hide Before;
    forall n, m | t.InTree(n) && t.InTree(m) && Table(t.mem, n).Some? && Table(t.mem, n) == Table(t.mem, m)
      ensures n == m
    {
      assert Before(s, r, n) == Before(s, r, m);
      BeforeInjective(s, r, n, m);
    }
  }

  /** Loading a PML4 that agrees with the loaded one: the tables stay well formed, and no
      translation of a kernel page changes. */
  lemma Loading(s: Space, r: Frame)
    requires s.WF() && s.NoEmptyTable() && s.IsRoot(r) && AgreeKernel(s.mem, r, s.cr3)
    ensures Load(s, r).WF() && Load(s, r).NoEmptyTable()
    ensures forall u: nat :: IsPage(u) && I4(u) >= KERNEL_SLOT ==> Lookup(s.mem, r, u) == Lookup(s.mem, s.cr3, u)
  {
    hide AgreeKernel, Lookup, I4, I3, I2, I1;
    var t := Load(s, r);
    LoadedTables(s, r);
    forall n, i: nat | t.HasSlot(n, i) ensures EntryOk(Slot(t.mem, n, i), n.Depth()) {
      LoadedSlot(s, r, n, i);
    }
    forall q: nat | t.IsRoot(q) ensures IsTable(Word(t.mem, q, WINDOW)) && Word(t.mem, q, WINDOW).frame == q {
      assert s.IsRoot(q);
    }
    forall n | t.InTree(n) && n.Sub? && Table(t.mem, n).Some? ensures !t.AllZero(n) {
      LoadedNotEmpty(s, r, n);
    }
    forall u: nat | IsPage(u) && I4(u) >= KERNEL_SLOT ensures Lookup(s.mem, r, u) == Lookup(s.mem, s.cr3, u) {
      KernelLookup(s, r, u);
    }
  }

  lemma LoadedNotEmpty(s: Space, r: Frame, n: Node)
    requires s.NoEmptyTable() && s.IsRoot(r) && AgreeKernel(s.mem, r, s.cr3)
    requires Load(s, r).InTree(n) && n.Sub? && Table(s.mem, n).Some?
    ensures !Load(s, r).AllZero(n)
  {
    BeforeSame(s, r, n);
    var i :| 0 <= i < PTE_COUNT && Slot(s.mem, Before(s, r, n), i) != ZERO;
    assert Slot(s.mem, n, i) != ZERO;
  }

  lemma LoadedSlot(s: Space, r: Frame, n: Node, i: nat)
    requires s.WF() && s.IsRoot(r) && AgreeKernel(s.mem, r, s.cr3) && Load(s, r).HasSlot(n, i)
    ensures EntryOk(Slot(s.mem, n, i), n.Depth())
  {
    assert Load(s, r).InTree(n);
    BeforeSame(s, r, n);
    if n == Top(r) && i >= KERNEL_SLOT {
      TopSlot(s.mem, r, i);
      TopSlot(s.mem, s.cr3, i);
      SameEntryFacts(Word(s.mem, r, i), Word(s.mem, s.cr3, i), ZERO);
      assert s.HasSlot(Top(s.cr3), i);
      assert EntryOk(Slot(s.mem, Top(s.cr3), i), 0);
    } else {
      assert s.HasSlot(Before(s, r, n), i);
    }
  }

  lemma KernelLookup(s: Space, r: Frame, u: nat)
    requires AgreeKernel(s.mem, r, s.cr3) && IsPage(u) && I4(u) >= KERNEL_SLOT
    ensures Lookup(s.mem, r, u) == Lookup(s.mem, s.cr3, u)
  {
    var i4, i3, i2 := I4(u), I3(u), I2(u);
    assert KERNEL_SLOT <= i4 < PTE_COUNT && i4 != WINDOW;
    hide I4, I3, I2, I1;
    var n1 := Sub(Top(r), i4);
    var n2 := Sub(n1, i3);
    assert InKernel(n1) && n1.Root() == r;
    assert Rebase(Top(r), s.cr3) == Top(s.cr3);
    assert Rebase(n1, s.cr3) == N1(s.cr3, u);
    assert InKernel(n2) && InKernel(Sub(n2, i2));
    assert Rebase(n2, s.cr3) == N2(s.cr3, u) && Rebase(Sub(n2, i2), s.cr3) == N3(s.cr3, u);
    assert n2.Root() == r && Sub(n2, i2).Root() == r;
    RebaseTable(s.mem, n2, s.cr3);
    RebaseTable(s.mem, Sub(n2, i2), s.cr3);
  }

  // ---- the steps that change which address spaces there are

  /** What every step keeps. */
  ghost predicate Good(s: Space) {
    s.WF() && s.NoEmptyTable() && Coherent(s) && Writables(s)
  }

  lemma GoodTables(s: Space)
    requires Good(s)
    ensures s.WF() && s.NoEmptyTable()
  {
  }

  /** Load the PML4 of task `k`, after syncing it through kernel page `v` if it is stale. */
  function Activate(s: Space, k: nat, v: nat): (r: Option<Space>)
    requires k < |s.tasks| && s.pm.Valid()
    ensures r.Some? ==> r.value.pm.Valid()
  {
    var r := s.tasks[k].vmm;
    if r == s.cr3 then Some(s)
    else if !s.tasks[k].stale then Some(Load(s, r))
    else match Sync(s, r, v)
      case None => None
      case Some(u) =>
        if k < |u.tasks| then Some(Load(u.(tasks := u.tasks[k := u.tasks[k].(stale := false)]), r)) else None
  }

  lemma AgreeFacts(mem: Mem, a: Frame, b: Frame, c: Frame)
    requires AgreeKernel(mem, a, b)
    ensures AgreeKernel(mem, b, a) && (AgreeKernel(mem, b, c) ==> AgreeKernel(mem, a, c))
  {
    forall i: nat | KERNEL_SLOT <= i < PTE_COUNT && i != WINDOW
      ensures SameEntry(Word(mem, b, i), Word(mem, a, i))
      ensures AgreeKernel(mem, b, c) ==> SameEntry(Word(mem, a, i), Word(mem, c, i))
    {
      SameEntryFacts(Word(mem, a, i), Word(mem, b, i), Word(mem, c, i));
    }
  }

  lemma LoadWritables(s: Space, r: Frame)
    requires Writables(s) && AgreeKernel(s.mem, r, s.cr3)
    ensures Writables(Load(s, r))
  {
    forall j: nat | KernelSlot(j) && Word(s.mem, r, j) != ZERO ensures {Present, Writable} <= Word(s.mem, r, j).flags {
      var a, b := Word(s.mem, r, j), Word(s.mem, s.cr3, j);
      assert SameEntry(a, b);
      SameEntryFacts(a, b, ZERO);
      assert {Present, Writable} <= b.flags - {Accessed, Dirty};
    }
  }

  lemma LoadCoherent(s: Space, r: Frame)
    requires Coherent(s) && Writables(s) && AgreeKernel(s.mem, r, s.cr3)
    ensures Coherent(Load(s, r)) && Writables(Load(s, r))
  {
    hide AgreeKernel, Writables;
    LoadWritables(s, r);
    var t := Load(s, r);
    forall i | 0 <= i < |t.tasks| && t.tasks[i].queued && t.tasks[i].vmm != t.cr3 && !t.tasks[i].stale
      ensures AgreeKernel(t.mem, t.tasks[i].vmm, t.cr3)
    {
      AgreeFacts(s.mem, r, s.cr3, s.cr3);
      if t.tasks[i].vmm != s.cr3 { AgreeFacts(s.mem, t.tasks[i].vmm, s.cr3, r); }
    }
  }

  /** Replacing the flags of a task changes no address space. */
  lemma Reflag(s: Space, k: nat, task: TaskVm)
    requires s.WF() && s.NoEmptyTable() && k < |s.tasks| && task.vmm == s.tasks[k].vmm
    ensures var t := s.(tasks := s.tasks[k := task]); t.WF() && t.NoEmptyTable() && SameRoots(s, t)
  {
    var t := s.(tasks := s.tasks[k := task]);
    forall f: nat ensures s.IsRoot(f) == t.IsRoot(f) {
      if s.IsRoot(f) && f != s.cr3 {
        var i :| 0 <= i < |s.tasks| && s.tasks[i].vmm == f;
        assert t.tasks[i] in t.tasks && t.tasks[i].vmm == f;
      }
      if t.IsRoot(f) && f != s.cr3 {
        var i :| 0 <= i < |t.tasks| && t.tasks[i].vmm == f;
        assert s.tasks[i] in s.tasks && s.tasks[i].vmm == f;
      }
    }
    SameTree(s, t);
  }

  /** A sync keeps the flags of the loaded PML4, and its kernel half if it ends in agreement. */
  lemma SyncTop(s: Space, r: Frame, v: nat)
    requires SyncReady(s, r, v) && Writables(s)
    ensures Writables(Sync(s, r, v).value) && (SlotTaken(s, v) ==> Fixed(s, Sync(s, r, v).value))
  {
    hide MapOne, UnmapOne, PageTables.Space.WF, PageTables.Space.NoEmptyTable, OthersStay, TopGuarded, I4, I3, I2, I1,
      Lookup, InHuge;
    WFPm(s);
    NotHuge(s, v);
    MappingIt(s, r, v);
    MapOneTop(s, v, r, TEMPORARY);
    var s1 := MapOne(s, v, r, TEMPORARY).value;
    RewritingIt(s1, r);
    var s2 := Rewrite(s1, r);
    SameAnchor(s, s2, v, Entry(r, LeafFlags(TEMPORARY)));
    UnmappingIt(s2, r, v);
    var t := Sync(s, r, v).value;
    assert t == UnmapOne(s2, v, true).0;
    assert forall j: nat :: Word(s2.mem, s.cr3, j) == Word(s1.mem, s.cr3, j);
    AnchoredExact(s, v);
  }

  /** A sync that ends in agreement keeps all tasks coherent, and the synced one needs no more. */
  lemma SyncCoherent(s: Space, k: nat, v: nat)
    requires Good(s) && k < |s.tasks| && SyncReady(s, s.tasks[k].vmm, v) && s.tasks[k].vmm != s.cr3 && SlotTaken(s, v)
    ensures var u := Sync(s, s.tasks[k].vmm, v).value;
            && |u.tasks| == |s.tasks| && u.tasks[k].vmm == s.tasks[k].vmm
            && Good(u.(tasks := u.tasks[k := u.tasks[k].(stale := false)]))
            && AgreeKernel(u.mem, s.tasks[k].vmm, u.cr3) && u.cr3 == s.cr3 && SameMap(s, u)
  {
    hide Sync, AgreeKernel, PageTables.Space.NoEmptyTable, SameMap, TopGuarded, I4, I3, I2, I1, Writables;
    var r := s.tasks[k].vmm;
    Syncing(s, r, v);
    SyncTop(s, r, v);
    var u := Sync(s, r, v).value;
    var w := u.(tasks := u.tasks[k := u.tasks[k].(stale := false)]);
    Reflag(u, k, u.tasks[k].(stale := false));
    assert Writables(w) by { SameWritables(u, w); }
    forall i | 0 <= i < |w.tasks| && w.tasks[i].queued && w.tasks[i].vmm != w.cr3 && !w.tasks[i].stale
      ensures AgreeKernel(w.mem, w.tasks[i].vmm, w.cr3)
    {
      if w.tasks[i].vmm != r { GuardedKeeps(s, u, r, i); }
    }
  }

  lemma SameWritables(s: Space, t: Space)
    requires t.cr3 == s.cr3 && t.mem == s.mem && Writables(s)
    ensures Writables(t)
  {
  }

  /** A task that can be activated: it is queued, and if it must be synced, the slot of the page that the
      sync goes through is taken, so that the sync ends in agreement. */
  ghost predicate Activable(s: Space, k: nat, v: nat)
    requires s.pm.Valid()
  {
    && k < |s.tasks| && s.tasks[k].queued
    && (s.tasks[k].stale && s.tasks[k].vmm != s.cr3 ==> SyncReady(s, s.tasks[k].vmm, v) && SlotTaken(s, v))
  }

  /** Loading the PML4 of a queued task never changes the kernel's view of memory, and keeps every other
      task coherent with the newly loaded PML4. */
  lemma Activating(s: Space, k: nat, v: nat)
    requires Good(s) && Activable(s, k, v)
    ensures Activate(s, k, v).Some?
    ensures var t := Activate(s, k, v).value; Good(t) && t.cr3 == s.tasks[k].vmm && SameKernel(s, t)
  {
    hide Sync, AgreeKernel, PageTables.Space.NoEmptyTable, I4, I3, I2, I1, Lookup, InHuge, Writables;
    var r := s.tasks[k].vmm;
    assert s.tasks[k] in s.tasks && s.IsRoot(r);
    if r != s.cr3 {
      if s.tasks[k].stale {
        SyncCoherent(s, k, v);
        var u := Sync(s, r, v).value;
        var w := u.(tasks := u.tasks[k := u.tasks[k].(stale := false)]);
        assert w.tasks[k] in w.tasks && w.IsRoot(r);
        Loading(w, r);
        LoadCoherent(w, r);
        assert SameKernel(s, Load(w, r));
      } else {
        Loading(s, r);
        LoadCoherent(s, r);
      }
    }
  }

  /** The PML4 of a stale task can be loaded after a sync if and only if the slot of the page that the sync
      goes through is taken: otherwise it leads to a table that has been given back. */
  lemma ActivatingExact(s: Space, k: nat, v: nat)
    requires Good(s) && k < |s.tasks| && s.tasks[k].queued && s.tasks[k].stale && s.tasks[k].vmm != s.cr3
    requires SyncReady(s, s.tasks[k].vmm, v)
    ensures Activate(s, k, v).Some?
    ensures Good(Activate(s, k, v).value) <==> SlotTaken(s, v)
  {
    hide Sync, AgreeKernel, PageTables.Space.NoEmptyTable, I3, I2, I1, Lookup, InHuge, Writables, TopGuarded, SameMap;
    var r := s.tasks[k].vmm;
    Syncing(s, r, v);
    if SlotTaken(s, v) {
      Activating(s, k, v);
    } else {
      var u := Sync(s, r, v).value;
      SyncDangles(s, r, v);
      var t := Activate(s, k, v).value;
      var n := Sub(Top(r), I4(v));
      TopSlot(t.mem, r, I4(v));
      assert t.InTree(Top(r)) && t.HasSlot(Top(r), I4(v)) && t.InTree(n);
      assert Table(t.mem, n) == Some(Word(u.mem, r, I4(v)).frame) && t.pm == u.pm;
    }
  }

  // ---- the whole switch

  /** `task_switch` to task `k` with regions `rs`: nothing if its PML4 is loaded; otherwise load it and map
      the regions, up to the first that fails. */
  function Switch(s: Space, k: nat, v: nat, rs: seq<Region>, kernelEnd: nat): (r: LoopResult)
    requires k < |s.tasks| && s.pm.Valid()
    ensures r.Looped? ==> r.mapped <= |rs|
  {
    if s.tasks[k].vmm == s.cr3 then Looped(s, 0, true)
    else match Activate(s, k, v)
      case None => NoTable
      case Some(t) => MapRegions(t, rs, kernelEnd)
  }

  /** The regions' pages are outside the window and not below 2 MiB entries of the task's PML4. */
  ghost predicate RegionsFit(s: Space, k: nat, v: nat, rs: seq<Region>)
    requires k < |s.tasks| && s.pm.Valid()
  {
    Activate(s, k, v).Some? ==> AllSmall(Activate(s, k, v).value, rs)
  }

  /** What a switch does: tasks stay coherent, and every page of the kernel half has the entry that
      mapping the regions, as far as they were mapped, gives it; all other kernel pages keep theirs. */
  lemma Switching(s: Space, k: nat, v: nat, rs: seq<Region>, kernelEnd: nat)
    requires Good(s) && Activable(s, k, v) && RegionsFit(s, k, v, rs) && Switch(s, k, v, rs, kernelEnd).Looped?
    ensures var l := Switch(s, k, v, rs, kernelEnd);
            && Good(l.space) && l.space.cr3 == s.tasks[k].vmm
            && forall u: nat :: KernelPage(u) ==>
                 Lookup(l.space.mem, l.space.cr3, u) == After(Lookup(s.mem, s.cr3, u), rs[..l.mapped], u)
  {
    hide Activate, MapRegions, AgreeKernel, PageTables.Space.NoEmptyTable, I4, Lookup, InHuge, Writables, Coherent,
      After, TopGuarded, SyncReady, SlotTaken, IsPage;
    if s.tasks[k].vmm != s.cr3 {
      Activating(s, k, v);
      var t := Activate(s, k, v).value;
      MappingRegions(t, rs, kernelEnd);
      LoopWritables(t, rs, kernelEnd);
      FollowsKeeps(t, MapRegions(t, rs, kernelEnd).space);
    } else {
      forall u: nat ensures After(Lookup(s.mem, s.cr3, u), [], u) == Lookup(s.mem, s.cr3, u) {
        AfterNone(Lookup(s.mem, s.cr3, u), [], u);
      }
      assert rs[..0] == [];
    }
  }

  lemma {:induction false} LoopWritables(s: Space, rs: seq<Region>, kernelEnd: nat)
    requires s.WF() && Writables(s) && AllSmall(s, rs) && MapRegions(s, rs, kernelEnd).Looped?
    ensures Writables(MapRegions(s, rs, kernelEnd).space)
    decreases |rs|
  {
    hide MapPages, ExactPasses, PageTables.Space.NoEmptyTable, OthersStay, Lookup, InHuge, Writables, TopGuarded,
      TablesStay, Undisturbed, IsPage;
    if rs != [] {
      var r := rs[0];
      var e := ExactMap(s, r.frame, r.page, r.num, RegionAttr(r), kernelEnd);
      if e.Done? {
        var j := Skip(s, r.frame, r.page, r.num);
        assert SmallPages(s, r.page, r.num) && SmallPages(s, r.page + j, r.num - j);
        MapPagesTop(s, r.page + j, r.frame + j, r.num - j, RegionAttr(r));
        ExactMapping(s, r.frame, r.page, r.num, RegionAttr(r), kernelEnd);
        SmallKept(s, e.space, rs);
        LoopWritables(e.space, rs[1..], kernelEnd);
      }
    }
  }

  /** The kernel's view of memory survives a switch that maps all regions if and only if the kernel pages
      of the regions already have the frames and the flags that the regions give them. */
  lemma SwitchView(s: Space, k: nat, v: nat, rs: seq<Region>, kernelEnd: nat)
    requires Good(s) && Activable(s, k, v) && RegionsFit(s, k, v, rs) && PagesApart(rs) && s.tasks[k].vmm != s.cr3
    requires Switch(s, k, v, rs, kernelEnd).Looped? && Switch(s, k, v, rs, kernelEnd).ok
    ensures SameKernel(s, Switch(s, k, v, rs, kernelEnd).space) <==> KernelSettled(s, rs)
  {
    hide Activate, MapRegions, AgreeKernel, PageTables.Space.NoEmptyTable, PageTables.Space.WF, I4, Lookup, InHuge,
      Writables, Coherent, After, TopGuarded, IsPage, PagesApart, Settled, Covers, OthersStay, RegionsMapped,
      SyncReady;
    WFPm(s);
    Activating(s, k, v);
    var t := Activate(s, k, v).value;
    WFPm(t);
    MappingRegions(t, rs, kernelEnd);
    var l := MapRegions(t, rs, kernelEnd);
    assert rs[..l.mapped] == rs;
    ViewExact(t, l.space, rs);
    SettledSame(s, t, rs);
  }

  lemma SettledSame(s: Space, t: Space, rs: seq<Region>)
    requires SameKernel(s, t)
    ensures KernelSettled(s, rs) == KernelSettled(t, rs)
  {
    hide Lookup, KernelPage, Settled, Covers;
  }

  /** A switch that returns 0 and was not to the loaded PML4 leaves every region mapped to its frames. */
  lemma SwitchMaps(s: Space, k: nat, v: nat, rs: seq<Region>, kernelEnd: nat, i: nat)
    requires Good(s) && Activable(s, k, v) && RegionsFit(s, k, v, rs) && PagesApart(rs) && s.tasks[k].vmm != s.cr3
             && i < |rs|
    requires Switch(s, k, v, rs, kernelEnd).Looped? && Switch(s, k, v, rs, kernelEnd).ok
    ensures RegionMapped(Switch(s, k, v, rs, kernelEnd).space, rs[i])
  {
    hide Activate, MapRegions, AgreeKernel, I4, Lookup, InHuge, Writables, Coherent, PagesApart, Covers, SyncReady;
    Activating(s, k, v);
    LoopMaps(Activate(s, k, v).value, rs, kernelEnd, i);
  }

  /** It returns 0 if and only if every region passes the checks in the task's own address space: in
      particular it fails for a region of one page that is mapped to its frame already. */
  lemma SwitchSucceeds(s: Space, k: nat, v: nat, rs: seq<Region>, kernelEnd: nat)
    requires Good(s) && Activable(s, k, v) && RegionsFit(s, k, v, rs) && PagesApart(rs) && s.tasks[k].vmm != s.cr3
    requires Switch(s, k, v, rs, kernelEnd).Looped?
    ensures Switch(s, k, v, rs, kernelEnd).ok <==>
            forall i :: 0 <= i < |rs| ==> Passes(Activate(s, k, v).value, rs[i], kernelEnd)
  {
    hide Activate, MapRegions, AgreeKernel, I4, Lookup, InHuge, Writables, Coherent, PagesApart, Covers, SyncReady,
      Passes;
    Activating(s, k, v);
    LoopSucceeds(Activate(s, k, v).value, rs, kernelEnd);
  }

  /** The child of a fork: its regions have the addresses of its parent's and frames of their own. While a
      kernel region of the parent is mapped, a switch to the child changes the translation of every page
      of it, for everybody. */
  lemma ForkedSwitch(s: Space, k: nat, v: nat, rs: seq<Region>, cs: seq<Region>, kernelEnd: nat, i: nat, u: nat)
    requires Good(s) && Activable(s, k, v) && RegionsFit(s, k, v, cs) && PagesApart(cs) && s.tasks[k].vmm != s.cr3
    requires |cs| == |rs| && i < |rs| && RegionMapped(s, rs[i]) && cs[i] == rs[i].(frame := cs[i].frame)
             && cs[i].frame != rs[i].frame
    requires Covers(rs[i], u) && KernelPage(u)
    requires Switch(s, k, v, cs, kernelEnd).Looped? && Switch(s, k, v, cs, kernelEnd).ok
    ensures var t := Switch(s, k, v, cs, kernelEnd).space;
            && Lookup(s.mem, s.cr3, u).frame == rs[i].frame + (u - rs[i].page)
            && Lookup(t.mem, t.cr3, u).frame == cs[i].frame + (u - rs[i].page)
            && !SameKernel(s, t)
  {
    hide Switch, SyncReady, SlotTaken, RegionsFit, Lookup, InHuge, IsPage, I4, PagesApart;
    WFPm(s);
    SwitchMaps(s, k, v, cs, kernelEnd, i);
    var t := Switch(s, k, v, cs, kernelEnd).space;
    assert PagesAt(t, cs[i].page, cs[i].frame, cs[i].num) && cs[i].page <= u < cs[i].page + cs[i].num;
  }

  // ---- new tasks

  /** A frame prepared as a PML4 with an empty user half becomes the PML4 of a new task. */
  lemma AddRoot(s: Space, g: Frame, task: TaskVm)
    requires s.WF() && s.NoEmptyTable() && s.Foreign(g) && IsFrame(s.mem, g) && task.vmm == g
    requires forall j: nat :: j < KERNEL_SLOT ==> Word(s.mem, g, j) == ZERO
    requires Word(s.mem, g, WINDOW) == Entry(g, {Present, Writable})
    ensures var t := s.(tasks := s.tasks + [task]); t.WF() && t.NoEmptyTable()
  {
    var t := s.(tasks := s.tasks + [task]);
    ForeignIsNoRoot(s, s, g);
    forall f: nat ensures t.IsRoot(f) == (s.IsRoot(f) || f == g) {
      assert task in t.tasks;
      if s.IsRoot(f) && f != s.cr3 {
        var i :| 0 <= i < |s.tasks| && s.tasks[i].vmm == f;
        assert t.tasks[i] == s.tasks[i];
      }
    }
    forall n | t.InTree(n)
      ensures s.InTree(n) || n == Top(g) || (Table(t.mem, n) == None && forall j: nat :: Slot(t.mem, n, j) == ZERO)
    {
      AddedNode(s, g, task, n);
    }
    forall n, i: nat | t.HasSlot(n, i) ensures EntryOk(Slot(t.mem, n, i), n.Depth()) {
      assert t.InTree(n);
      if s.InTree(n) { assert s.HasSlot(n, i); }
      if n == Top(g) { TopSlot(t.mem, g, i); }
    }
    assert Table(t.mem, Top(g)) == Some(g);
  }

  lemma {:induction false} AddedNode(s: Space, g: Frame, task: TaskVm, n: Node)
    requires s.(tasks := s.tasks + [task]).InTree(n) && task.vmm == g && g != s.cr3
    requires forall j: nat :: j < KERNEL_SLOT ==> Word(s.mem, g, j) == ZERO
    ensures s.InTree(n) || n == Top(g) || (Table(s.mem, n) == None && forall j: nat :: Slot(s.mem, n, j) == ZERO)
  {
    var t := s.(tasks := s.tasks + [task]);
    if n.Sub? {
      UnfoldNode(t, n);
      AddedNode(s, g, task, n.parent);
      if s.InTree(n.parent) {
        assert s.HasSlot(n.parent, n.index);
      } else {
        TopSlot(s.mem, g, n.index);
        assert Slot(s.mem, n.parent, n.index) == ZERO;
      }
    }
  }

  /** `vmm_new`: allocate a frame, sync it through kernel page `v`, make it the PML4 of a task
      that is not in the queue yet. */
  function NewTask(s: Space, v: nat): (t: Option<Space>)
    requires s.pm.Valid()
    ensures t.Some? ==> t.value.pm.Valid()
  {
    match FirstFit(s.pm, 1, 0)
    case None => None
    case Some(g) =>
      match Sync(s.(pm := s.pm.Mark(g, 1, true)), g, v)
      case None => None
      case Some(u) => Some(u.(tasks := u.tasks + [TaskVm(g, false, false)]))
  }

  /** There is a frame for a PML4, it can be synced, and slot 255 of it, which a sync neither clears nor
      copies, is zero. */
  ghost predicate NewReady(s: Space, v: nat)
    requires s.pm.Valid()
  {
    && FirstFit(s.pm, 1, 0).Some?
    && var g := FirstFit(s.pm, 1, 0).value;
       SyncReady(s.(pm := s.pm.Mark(g, 1, true)), g, v) && Word(s.mem, g, KERNEL_SLOT - 1) == ZERO
  }

  lemma TakingFrame(s: Space, g: Frame)
    requires s.WF() && s.NoEmptyTable() && s.pm.IsFree(g)
    ensures var t := s.(pm := s.pm.Mark(g, 1, true)); t.WF() && t.NoEmptyTable() && t.Foreign(g) && IsFrame(t.mem, g)
  {
    SameTree(s, s.(pm := s.pm.Mark(g, 1, true)));
  }

  /** The new PML4 is well formed if the allocated frame happens to have nothing in slot 255, which
      the sync does not clear, and agrees with the loaded kernel half if and only if the temporary
      page's slot was taken. */
  lemma NewTaskGood(s: Space, v: nat)
    requires Good(s) && s.pm.Valid() && NewReady(s, v) && NewTask(s, v).Some?
    ensures var t := NewTask(s, v).value;
            && Good(t) && t.cr3 == s.cr3 && SameMap(s, t) && |t.tasks| == |s.tasks| + 1
            && (AgreeKernel(t.mem, t.tasks[|s.tasks|].vmm, t.cr3) <==> SlotTaken(s, v))
            && (SlotTaken(s, v) ==> Fixed(s, t)) && t.tasks[|s.tasks|].vmm != t.cr3
            && !t.tasks[|s.tasks|].queued && !t.tasks[|s.tasks|].stale
  {
    hide Sync, AgreeKernel, I4, I3, I2, I1, Lookup, InHuge, TopGuarded, Writables;
    var g := FirstFit(s.pm, 1, 0).value;
    assert s.pm.IsFree(g);
    TakingFrame(s, g);
    var s0 := s.(pm := s.pm.Mark(g, 1, true));
    Syncing(s0, g, v);
    SameWritables(s, s0);
    SyncTop(s0, g, v);
    var u := Sync(s0, g, v).value;
    SameWritables(u, NewTask(s, v).value);
    assert !u.IsRoot(g) by { ForeignIsNoRoot(s0, u, g); }
    AddRoot(u, g, TaskVm(g, false, false));
    var t := NewTask(s, v).value;
    assert Coherent(s0);
    forall i | 0 <= i < |t.tasks| && t.tasks[i].queued && t.tasks[i].vmm != t.cr3 && !t.tasks[i].stale
      ensures AgreeKernel(t.mem, t.tasks[i].vmm, t.cr3)
    {
      assert u.tasks[i] in u.tasks && u.tasks[i].vmm != g;
      GuardedKeeps(s0, u, g, i);
    }
    assert SlotTaken(s0, v) == SlotTaken(s, v);
  }

  lemma ForeignIsNoRoot(s: Space, t: Space, g: Frame)
    requires s.pm.Valid() && s.Foreign(g) && t.cr3 == s.cr3 && TasksFollow(s, t)
    ensures !t.IsRoot(g) && !s.IsRoot(g)
  {
    FollowsRoots(s, t);
    if s.IsRoot(g) { assert s.InTree(Top(g)) && Table(s.mem, Top(g)) == Some(g); }
  }

  /** How many frames from `f` on are allocated, up to `num`. */
  function UsedRun(b: Bitmap, f: Frame, num: nat): (k: nat)
    ensures k <= num && forall g: nat :: f <= g < f + k ==> b.IsUsed(g)
    decreases num
  {
    if num == 0 || !b.IsUsed(f) then 0 else 1 + UsedRun(b, f + 1, num - 1)
  }

  /** `region_free` of every region of a task: `pmm_free` stops at the first page that is not allocated. */
  function FreeRegions(b: Bitmap, rs: seq<Region>): (r: Bitmap)
    ensures r.base == b.base && r.usable == b.usable && |r.bits| == |b.bits|
    ensures forall g: nat :: g !in FramesOf(rs) ==> r.IsUsed(g) == b.IsUsed(g)
    decreases |rs|
  {
    if rs == [] then b
    else if rs[0].frame == 0 then FreeRegions(b, rs[1..])
    else FreeRegions(b.Mark(rs[0].frame, UsedRun(b, rs[0].frame, rs[0].num), false), rs[1..])
  }

  /** A dead task leaves the queue; its regions' frames and its PML4 are given back. */
  function Exit(s: Space, k: nat, rs: seq<Region>): Space
    requires k < |s.tasks|
  {
    s.(tasks := s.tasks[..k] + s.tasks[k + 1..], pm := FreeOne(FreeRegions(s.pm, rs), s.tasks[k].vmm))
  }

  /** No frame of the regions holds a table. */
  ghost predicate NoTables(s: Space, rs: seq<Region>) { forall g: nat :: g in FramesOf(rs) ==> s.NotTable(g) }

  lemma Exiting(s: Space, k: nat, rs: seq<Region>)
    requires Good(s) && k < |s.tasks| && s.tasks[k].vmm != s.cr3 && NoTables(s, rs)
    requires forall i :: 0 <= i < |s.tasks| && i != k ==> s.tasks[i].vmm != s.tasks[k].vmm
    ensures Good(Exit(s, k, rs)) && SameMap(s, Exit(s, k, rs))
  {
    hide FreeRegions, FramesOf, Lookup, InHuge, AgreeKernel;
    var t, g := Exit(s, k, rs), s.tasks[k].vmm;
    assert s.tasks[k] in s.tasks && s.InTree(Top(g)) && Table(s.mem, Top(g)) == Some(g);
    forall f: nat | t.IsRoot(f) ensures s.IsRoot(f) && f != g {
      if f != s.cr3 {
        var i :| 0 <= i < |t.tasks| && t.tasks[i].vmm == f;
        assert t.tasks[i] == s.tasks[if i < k then i else i + 1];
      }
    }
    forall n | t.InTree(n) ensures s.InTree(n) && n.Root() != g && n != Top(g) {
      FewerRoots(s, t, g, n);
    }
    forall n | t.InTree(n) && Table(t.mem, n).Some? ensures !t.pm.IsFree(Table(t.mem, n).value) {
      ExitFrees(s, k, rs, n);
    }
    forall n, i: nat | t.HasSlot(n, i) ensures EntryOk(Slot(t.mem, n, i), n.Depth()) {
      assert s.InTree(n) && s.HasSlot(n, i);
    }
    forall i | 0 <= i < |t.tasks| && t.tasks[i].queued && t.tasks[i].vmm != t.cr3 && !t.tasks[i].stale
      ensures AgreeKernel(t.mem, t.tasks[i].vmm, t.cr3)
    {
      assert t.tasks[i] == s.tasks[if i < k then i else i + 1];
    }
  }

  /** What it gives back: all frames of its regions and that of its PML4, and nothing else. */
  lemma ExitGivesBack(s: Space, k: nat, rs: seq<Region>)
    requires s.pm.Valid() && k < |s.tasks| && Apart(rs) && forall g: nat :: g in FramesOf(rs) ==> s.pm.IsUsed(g)
    ensures forall g: nat :: Exit(s, k, rs).pm.IsUsed(g) <==>
              s.pm.IsUsed(g) && g != s.tasks[k].vmm && g !in FramesOf(rs)
  {
    hide FreeRegions, FramesOf, Apart;
    RegionsFreed(s.pm, rs);
  }

  lemma {:induction false} RegionsFreed(b: Bitmap, rs: seq<Region>)
    requires Apart(rs) && forall g: nat :: g in FramesOf(rs) ==> b.IsUsed(g)
    ensures forall g: nat :: g in FramesOf(rs) ==> !FreeRegions(b, rs).IsUsed(g)
    decreases |rs|
  {
    if rs != [] {
      var r := rs[0];
      if r.frame > 0 { AllUsed(b, r.frame, r.num); }
      var c := if r.frame == 0 then b else b.Mark(r.frame, r.num, false);
      RegionsFreed(c, rs[1..]);
    }
  }

  lemma {:induction false} AllUsed(b: Bitmap, f: Frame, num: nat)
    requires forall g: nat :: f <= g < f + num ==> b.IsUsed(g)
    ensures UsedRun(b, f, num) == num
    decreases num
  {
    if num > 0 { AllUsed(b, f + 1, num - 1); }
  }

  /** A table that is left is not in a frame that was given back. */
  lemma ExitFrees(s: Space, k: nat, rs: seq<Region>, n: Node)
    requires s.WF() && k < |s.tasks| && NoTables(s, rs) && s.InTree(n) && n != Top(s.tasks[k].vmm)
             && Table(s.mem, n).Some?
    ensures Exit(s, k, rs).pm.Valid() && !Exit(s, k, rs).pm.IsFree(Table(s.mem, n).value)
  {
    hide FreeRegions, FramesOf;
    var f, g, b := Table(s.mem, n).value, s.tasks[k].vmm, FreeRegions(s.pm, rs);
    assert s.tasks[k] in s.tasks && s.InTree(Top(g)) && Table(s.mem, Top(g)) == Some(g);
    assert f != g;
    assert f in FramesOf(rs) ==> s.NotTable(f);
    assert b.IsUsed(f) == s.pm.IsUsed(f);
  }

  lemma {:induction false} FewerRoots(s: Space, t: Space, g: Frame, n: Node)
    requires t.InTree(n) && t.cr3 == s.cr3 && forall f: nat :: t.IsRoot(f) ==> s.IsRoot(f) && f != g
    ensures s.InTree(n) && n.Root() != g && n != Top(g)
  {
    if n.Sub? {
      UnfoldNode(t, n);
      FewerRoots(s, t, g, n.parent);
      assert s.HasSlot(n.parent, n.index);
    }
  }

  /** Putting a task in the queue keeps the tasks coherent exactly if it is stale, uses the loaded
      PML4, or agrees with it. */
  lemma Enqueuing(s: Space, k: nat)
    requires Good(s) && k < |s.tasks|
    ensures var task := s.tasks[k]; var t := s.(tasks := s.tasks[k := task.(queued := true)]);
            && t.WF() && t.NoEmptyTable() && Writables(t)
            && (Coherent(t) <==> task.stale || task.vmm == s.cr3 || AgreeKernel(s.mem, task.vmm, s.cr3))
  {
    hide AgreeKernel, Writables;
    Reflag(s, k, s.tasks[k].(queued := true));
    var t := s.(tasks := s.tasks[k := s.tasks[k].(queued := true)]);
    SameWritables(s, t);
    assert t.tasks[k] == s.tasks[k].(queued := true);
    assert forall i :: 0 <= i < |s.tasks| && i != k ==> t.tasks[i] == s.tasks[i];
  }

  /** The processor marks an entry of the loaded PML4 as accessed. */
  lemma Touching(s: Space, i: nat)
    requires Good(s) && s.HasSlot(Top(s.cr3), i) && IsTable(Slot(s.mem, Top(s.cr3), i))
    ensures var e := Slot(s.mem, Top(s.cr3), i);
            Good(Write(s, Top(s.cr3), i, Entry(e.frame, e.flags + {Accessed})))
  {
    var n := Top(s.cr3);
    var e := Slot(s.mem, n, i);
    var e' := Entry(e.frame, e.flags + {Accessed});
    var t := Write(s, n, i, e');
    Retag(s, n, i, e');
    SameTree(s, t);
    assert e.flags - {Accessed, Dirty} == e'.flags - {Accessed, Dirty};
    assert SameEntry(e', e);
    assert Follows(s, t) && TopGuarded(s, t);
    FollowsKeeps(s, t);
    forall m | t.InTree(m) && m.Sub? && Table(t.mem, m).Some? ensures !t.AllZero(m) {
      assert s.InTree(m) && Table(s.mem, m).Some?;
      var j :| 0 <= j < PTE_COUNT && Slot(s.mem, m, j) != ZERO;
      assert Slot(t.mem, m, j) != ZERO;
    }
  }
}
