/** The virtual memory manager as the kernel runs it (kernel/mm/vmm.c): every table entry is read
    and written at its virtual address in the recursive window, through the processor's walk. */
module Vmm {
  import opened Lists
  import opened PageBitmap
  import opened PageTables
  import opened PageSteps
  import opened PageMap
  import opened PageRefinement
  import opened PageRanges
  import opened ExactMaps
  import opened Window
  import opened KernelPages
  import opened Regions
  import opened RegionCopies

  /** The entry at physical address `p`. */
  function EntryAt(mem: Mem, p: nat): Entry { Word(mem, p / PAGE_SIZE, p % PAGE_SIZE / PTE_SIZE) }

  lemma EntryAddress(f: Frame, i: nat)
    requires i < PTE_COUNT
    ensures (f * PAGE_SIZE + i * PTE_SIZE) / PAGE_SIZE == f
            && (f * PAGE_SIZE + i * PTE_SIZE) % PAGE_SIZE / PTE_SIZE == i
  {
  }

  /** Entry `i` of the table named by `n` is at virtual address `entry`, and the table below it is
      at `table`: the three levels at which tables are created and removed. */
  predicate Level(r: Frame, v: nat, n: Node, i: nat, entry: nat, table: nat) {
    || (n == Top(r) && i == I4(v) && entry == Pml4Addr() + i * PTE_SIZE && table == PdptAddr(v))
    || (n == N1(r, v) && i == I3(v) && entry == PdptAddr(v) + i * PTE_SIZE && table == PdAddr(v))
    || (n == N2(r, v) && i == I2(v) && entry == PdAddr(v) + i * PTE_SIZE && table == PtAddr(v))
  }

  lemma LevelReaches(s: Space, v: nat, n: Node, i: nat, entry: nat, table: nat, j: nat)
    requires HasWindow(s.mem, s.cr3) && IsPage(v) && Level(s.cr3, v, n, i, entry, table) && i < PTE_COUNT
             && j < PTE_COUNT
    requires Table(s.mem, n).Some?
    ensures HwWalk(s.mem, s.cr3, entry) == Some(Table(s.mem, n).value * PAGE_SIZE + i * PTE_SIZE)
    ensures Table(s.mem, Sub(n, i)).Some? ==>
              HwWalk(s.mem, s.cr3, table + j * PTE_SIZE)
              == Some(Table(s.mem, Sub(n, i)).value * PAGE_SIZE + j * PTE_SIZE)
  {
    hide I4, I3, I2, I1, HwWalk, Pml4Addr, PdptAddr, PdAddr, PtAddr, Slot, HasWindow, IsPage;
    if n.Top? {
      WindowReaches(s, v, i);
      WindowReaches(s, v, j);
    } else if n.parent.Top? {
      WindowReaches(s, v, i);
      WindowReaches(s, v, j);
    } else {
      WindowReaches(s, v, i);
      WindowReaches(s, v, j);
    }
  }

  /** Address `a` translates to entry `i` of the table named by `n`. */
  predicate Reaches(s: Space, a: nat, n: Node, i: nat) {
    && Table(s.mem, n).Some? && i < PTE_COUNT
    && HwWalk(s.mem, s.cr3, a) == Some(Table(s.mem, n).value * PAGE_SIZE + i * PTE_SIZE)
  }

  lemma EntriesReached(s: Space, v: nat)
    requires HasWindow(s.mem, s.cr3) && IsPage(v)
    ensures Reaches(s, Pml4Addr() + I4(v) * PTE_SIZE, Top(s.cr3), I4(v))
    ensures Table(s.mem, N1(s.cr3, v)).Some? ==> Reaches(s, PdptAddr(v) + I3(v) * PTE_SIZE, N1(s.cr3, v), I3(v))
    ensures Table(s.mem, N2(s.cr3, v)).Some? ==> Reaches(s, PdAddr(v) + I2(v) * PTE_SIZE, N2(s.cr3, v), I2(v))
    ensures Table(s.mem, N3(s.cr3, v)).Some? ==> Reaches(s, PtAddr(v) + I1(v) * PTE_SIZE, N3(s.cr3, v), I1(v))
  {
    IndexBounds(v);
    hide I4, I3, I2, I1, HwWalk, Pml4Addr, PdptAddr, PdAddr, PtAddr, Slot, HasWindow, IsPage;
    WindowReaches(s, v, I4(v));
    WindowReaches(s, v, I3(v));
    WindowReaches(s, v, I2(v));
    WindowReaches(s, v, I1(v));
  }

  lemma IndexBounds(v: nat)
    ensures I4(v) < PTE_COUNT && I3(v) < PTE_COUNT && I2(v) < PTE_COUNT && I1(v) < PTE_COUNT
  {
  }

  lemma WFWindow(s: Space)
    requires s.WF()
    ensures HasWindow(s.mem, s.cr3) && s.pm.Valid()
  {
    assert s.IsRoot(s.cr3);
  }

  /** How far the path of page `v` goes, and where its translation is found. */
  lemma LookupChain(s: Space, v: nat)
    requires s.WF() && IsPage(v)
    ensures var e4 := Slot(s.mem, Top(s.cr3), I4(v));
            var e3 := Slot(s.mem, N1(s.cr3, v), I3(v));
            var e2 := Slot(s.mem, N2(s.cr3, v), I2(v));
            var e := Lookup(s.mem, s.cr3, v);
            && (e4 != ZERO ==> Table(s.mem, N1(s.cr3, v)).Some?)
            && (e3 != ZERO ==> Table(s.mem, N2(s.cr3, v)).Some?)
            && (e2 != ZERO && !InHuge(s.mem, s.cr3, v) ==> Table(s.mem, N3(s.cr3, v)).Some?)
            && (e4 == ZERO || e3 == ZERO || e2 == ZERO ==> e == ZERO && !InHuge(s.mem, s.cr3, v))
            && InHuge(s.mem, s.cr3, v) == (Huge in e2.flags)
            && e == if Huge in e2.flags then e2 else Slot(s.mem, N3(s.cr3, v), I1(v))
  {
    PathInTree(s, v);
    PathWords(s, v);
    hide I4, I3, I2, I1;
    assert EntryOk(Slot(s.mem, Top(s.cr3), I4(v)), 0) && EntryOk(Slot(s.mem, N1(s.cr3, v), I3(v)), 1);
    assert EntryOk(Slot(s.mem, N2(s.cr3, v), I2(v)), 2);
  }

  class Vmm {
    var mem: Mem
    var cr3: Frame
    var pm: Bitmap
    var tasks: seq<TaskVm>

    ghost function View(): Space
      reads this
    {
      Space(mem, cr3, pm, tasks)
    }

    /** Read an entry; an address that the processor cannot translate is a page fault. */
    method Load(va: nat) returns (e: Entry)
      requires HwWalk(mem, cr3, va).Some?
      ensures e == EntryAt(mem, HwWalk(mem, cr3, va).value)
    {
      e := EntryAt(mem, HwWalk(mem, cr3, va).value);
    }

    method Store(va: nat, e: Entry)
      requires HwWalk(mem, cr3, va).Some?
      modifies this`mem
      ensures var p := HwWalk(old(mem), cr3, va).value;
              mem == SetWord(old(mem), p / PAGE_SIZE, p % PAGE_SIZE / PTE_SIZE, e)
    {
      var p := HwWalk(mem, cr3, va).value;
      mem := SetWord(mem, p / PAGE_SIZE, p % PAGE_SIZE / PTE_SIZE, e);
    }

    /** Clear the page at `va`. */
    method ZeroPage(va: nat)
      requires HwWalk(mem, cr3, va).Some? && va % PAGE_SIZE == 0
      modifies this`mem
      ensures mem == old(mem)[HwWalk(old(mem), cr3, va).value / PAGE_SIZE := ZeroTable()]
    {
      mem := mem[HwWalk(mem, cr3, va).value / PAGE_SIZE := ZeroTable()];
    }

    /** `__vmm_alert_tasks` */
    method AlertTasks()
      modifies this`tasks
      ensures View() == Alert(old(View()))
    {
      var i := 0;
      while i < |tasks|
        invariant 0 <= i <= |tasks| == |old(tasks)|
        invariant forall j :: 0 <= j < i ==> tasks[j] == Alert(old(View())).tasks[j]
        invariant forall j :: i <= j < |tasks| ==> tasks[j] == old(tasks)[j]
      {
        if tasks[i].queued && cr3 != tasks[i].vmm {
          tasks := tasks[i := tasks[i].(stale := true)];
        }
        i := i + 1;
      }
    }

    /** `__vmm_is_table_free`: read every entry of the table at `table`. */
    method IsTableFree(table: nat, ghost v: nat, ghost n: Node, ghost i: nat, ghost entry: nat) returns (free: bool)
      requires HasWindow(mem, cr3) && IsPage(v) && Level(cr3, v, n, i, entry, table)
      requires i < PTE_COUNT && Table(mem, n).Some? && Table(mem, Sub(n, i)).Some?
      ensures free == View().AllZero(Sub(n, i))
    {
      hide HwWalk, Level, I4, I3, I2, I1;
      var j := 0;
      while j < PTE_COUNT
        invariant 0 <= j <= PTE_COUNT
        invariant forall k :: 0 <= k < j ==> Slot(mem, Sub(n, i), k) == ZERO
      {
        LevelReaches(View(), v, n, i, entry, table, j);
        EntryAddress(Table(mem, Sub(n, i)).value, j);
        var e := Load(table + j * PTE_SIZE);
        assert e == Slot(mem, Sub(n, i), j);
        if e != ZERO { return false; }
        j := j + 1;
      }
      return true;
    }

    /** Read the entry that `a` reaches. */
    method LoadEntry(a: nat, ghost n: Node, ghost i: nat) returns (e: Entry)
      requires Reaches(View(), a, n, i)
      ensures e == Slot(mem, n, i)
    {
      EntryAddress(Table(mem, n).value, i);
      e := Load(a);
    }

    /** Write the entry that `a` reaches. */
    method StoreEntry(a: nat, e: Entry, ghost n: Node, ghost i: nat)
      requires Reaches(View(), a, n, i)
      modifies this`mem
      ensures View() == Write(old(View()), n, i, e)
    {
      EntryAddress(Table(mem, n).value, i);
      Store(a, e);
    }

    /** `__vmm_entry_from_vaddr`: the address of the entry that maps page `v`, if it is mapped. */
    method EntryFromVaddr(v: nat) returns (entry: Option<nat>)
      requires View().WF() && IsPage(v)
      ensures entry == None <==> Lookup(mem, cr3, v) == ZERO
      ensures entry.Some? && InHuge(mem, cr3, v) ==> Reaches(View(), entry.value, N2(cr3, v), I2(v))
      ensures entry.Some? && !InHuge(mem, cr3, v) ==>
                entry.value == PtAddr(v) + I1(v) * PTE_SIZE && Reaches(View(), entry.value, N3(cr3, v), I1(v))
    {
      hide I4, I3, I2, I1, HwWalk, Pml4Addr, PdptAddr, PdAddr, PtAddr, Reaches, IsPage, PageTables.Space.WF, Slot,
        Table, Lookup, InHuge, HasWindow, N1, N2, N3;
      WFWindow(View());
      EntriesReached(View(), v);
      LookupChain(View(), v);
      var e := LoadEntry(Pml4Addr() + I4(v) * PTE_SIZE, Top(cr3), I4(v));
      if e == ZERO { return None; }
      e := LoadEntry(PdptAddr(v) + I3(v) * PTE_SIZE, N1(cr3, v), I3(v));
      if e == ZERO { return None; }
      e := LoadEntry(PdAddr(v) + I2(v) * PTE_SIZE, N2(cr3, v), I2(v));
      if e == ZERO { return None; }
      if Huge in e.flags { return Some(PdAddr(v) + I2(v) * PTE_SIZE); }
      e := LoadEntry(PtAddr(v) + I1(v) * PTE_SIZE, N3(cr3, v), I1(v));
      return if e == ZERO then None else Some(PtAddr(v) + I1(v) * PTE_SIZE);
    }

    /** `vmm_resolve` */
    method ResolveAddress(va: nat) returns (pa: nat)
      requires View().WF() && IsPage(PageOf(va))
      ensures pa == Resolve(View(), va)
      ensures HwWalk(mem, cr3, va) == if Lookup(mem, cr3, PageOf(va)) == ZERO then None else Some(pa)
    {
      WalkIsResolve(View(), va);
      hide I4, I3, I2, I1, HwWalk, Pml4Addr, PdptAddr, PdAddr, PtAddr, IsPage, Reaches;
      var v := PageOf(va);
      var entry := EntryFromVaddr(v);
      if entry == None { return 0; }
      ghost var n := if InHuge(mem, cr3, v) then N2(cr3, v) else N3(cr3, v);
      ghost var i := if InHuge(mem, cr3, v) then I2(v) else I1(v);
      var e := LoadEntry(entry.value, n, i);
      if Huge in e.flags {
        assert EntryOk(Slot(mem, n, i), n.Depth()) by { PathInTree(View(), v); }
        return e.frame * PAGE_SIZE + va % 0x20_0000;
      }
      return e.frame * PAGE_SIZE + va % PAGE_SIZE;
    }

    /** Take a frame, hook it in below entry `i` of `n` and clear it. False means that the frame
        allocator had nothing left; the kernel does not look at that case. */
    method CreateTable(entry: nat, table: nat, flags: set<Flag>, ghost v: nat, ghost n: Node, ghost i: nat)
        returns (ok: bool)
      requires View().WF() && IsPage(v) && Level(cr3, v, n, i, entry, table) && View().HasSlot(n, i) && n.Depth() < 3
      requires Table(mem, n).Some? && Slot(mem, n, i) == ZERO && IsTable(Entry(0, flags))
               && Reaches(View(), entry, n, i)
      modifies this`mem, this`pm
      ensures PageMap.EnsureTable(old(View()), n, i, flags) == if ok then Some(View()) else None
    {
      ghost var s := View();
      WFWindow(s);
      var g := FirstFit(pm, 1, 0);
      if g == None { return false; }
      HungTable(s, v, n, i, entry, table, Entry(g.value, flags));
      TableAligned(cr3, v, n, i, entry, table);
      hide HwWalk, Level, I4, I3, I2, I1, IsPage, PageTables.Space.WF, PageTables.Space.HasSlot, Reaches;
      pm := pm.Mark(g.value, 1, true);
      assert Reaches(View(), entry, n, i) by { SamePath(s, View(), entry, n, i); }
      StoreEntry(entry, Entry(g.value, flags), n, i);
      EntryAddress(g.value, 0);
      ZeroPage(table);
      return true;
    }

    /** Get or create the table below entry `i` of `n`, and give its entry the flags. */
    method EnsureTable(entry: nat, table: nat, flags: set<Flag>, ghost v: nat, ghost n: Node, ghost i: nat)
        returns (ok: bool)
      requires View().WF() && IsPage(v) && Level(cr3, v, n, i, entry, table) && View().HasSlot(n, i) && n.Depth() < 3
      requires Table(mem, n).Some? && Huge !in Slot(mem, n, i).flags && IsTable(Entry(0, flags))
      modifies this`mem, this`pm
      ensures PageMap.EnsureTable(old(View()), n, i, flags) == if ok then Some(View()) else None
    {
      WFWindow(View());
      LevelReaches(View(), v, n, i, entry, table, 0);
      hide HwWalk, Level, I4, I3, I2, I1, IsPage;
      var e := LoadEntry(entry, n, i);
      if e == ZERO {
        ok := CreateTable(entry, table, flags, v, n, i);
      } else {
        StoreEntry(entry, Entry(e.frame, e.flags + flags), n, i);
        ok := true;
      }
    }

    /** The PML4 level, whose changes the other tasks are told of. */
    method EnsureTop(v: nat, flags: set<Flag>) returns (ok: bool)
      requires View().WF() && IsPage(v) && IsTable(Entry(0, flags))
      modifies this`mem, this`pm, this`tasks
      ensures PageMap.EnsureTop(old(View()), I4(v), flags) == if ok then Some(View()) else None
    {
      WFWindow(View());
      EntriesReached(View(), v);
      PathInTree(View(), v);
      assert Huge !in Slot(mem, Top(cr3), I4(v)).flags;
      hide HwWalk, I4, I3, I2, I1, IsPage, Pml4Addr, PdptAddr, PdAddr, PtAddr, Reaches, PageTables.Space.WF,
        PageMap.EnsureTable;
      var entry := Pml4Addr() + I4(v) * PTE_SIZE;
      var e := LoadEntry(entry, Top(cr3), I4(v));
      ok := EnsureTable(entry, PdptAddr(v), flags, v, Top(cr3), I4(v));
      if ok && (e == ZERO || e.flags - {Accessed, Dirty} != flags) {
        AlertTasks();
      }
    }

    /** Make the tables below the PDPT of a page. */
    method EnsureLower(v: nat, flags: set<Flag>) returns (ok: bool)
      requires View().WF() && IsPage(v) && !InHuge(mem, cr3, v) && Table(mem, N1(cr3, v)).Some?
      requires IsTable(Entry(0, flags))
      modifies this`mem, this`pm
      ensures match PageMap.EnsureTable(old(View()), N1(old(cr3), v), I3(v), flags)
              case None => !ok
              case Some(t) => PageMap.EnsureTable(t, N2(old(cr3), v), I2(v), flags) == if ok then Some(View()) else None
    {
      hide HwWalk, I4, I3, I2, I1, Pml4Addr, PdptAddr, PdAddr, PtAddr, Reaches, PageTables.Space.WF,
        PageMap.EnsureTable, OthersStay, Undisturbed;
      ReadyBelow(View(), v);
      ghost var s := View();
      ok := EnsureTable(PdptAddr(v) + I3(v) * PTE_SIZE, PdAddr(v), flags, v, N1(cr3, v), I3(v));
      if !ok { return; }
      EnsuringTable(s, N1(cr3, v), I3(v), flags);
      ReadyBelow(View(), v);
      ok := EnsureTable(PdAddr(v) + I2(v) * PTE_SIZE, PtAddr(v), flags, v, N2(cr3, v), I2(v));
    }

    /** Map one page. */
    method MapPage(v: nat, f: Frame, attr: Attr) returns (ok: bool)
      requires View().WF() && IsPage(v) && !InHuge(mem, cr3, v)
      modifies this`mem, this`pm, this`tasks
      ensures MapOne(old(View()), v, f, attr) == if ok then Some(View()) else None
    {
      hide HwWalk, I4, I3, I2, I1, Pml4Addr, PdptAddr, PdAddr, PtAddr, Reaches, PageTables.Space.WF,
        PageMap.EnsureTable, PageMap.EnsureTop, TopGuarded, OthersStay, Undisturbed, EmptyOnlyOn, TablesStay;
      ghost var s := View();
      var flags := TableFlags(attr);
      ok := EnsureTop(v, flags);
      if !ok { return; }
      EnsuringTop(s, v, flags);
      ok := EnsureLower(v, flags);
      if !ok { return; }
      EnsuringPath(s, v, flags);
      ReadyBelow(View(), v);
      StoreEntry(PtAddr(v) + I1(v) * PTE_SIZE, Entry(f, LeafFlags(attr)), N3(cr3, v), I1(v));
    }

    /** `__vmm_map_to_paddr_internal`: map pages `[v, v + num)` to frames from `f` on. */
    method MapToPaddr(f: Frame, v: nat, num: nat, attr: Attr) returns (ok: bool)
      requires View().WF() && SmallPages(View(), v, num)
      modifies this`mem, this`pm, this`tasks
      ensures MapPages(old(View()), v, f, num, attr) == if ok then Some(View()) else None
      ensures ok ==> RangeMapped(old(View()), View(), v, f, num, LeafFlags(attr)) && View().WF()
    {
      hide MapOne, Undisturbed, OthersStay, TopGuarded, TablesStay, PageTables.Space.NoEmptyTable, TasksFollow,
        Lookup, InHuge, I4, I3, I2, I1;
      ghost var s := View();
      var k := 0;
      while k < num
        invariant 0 <= k <= num
        invariant View().WF() && SmallPages(View(), v + k, num - k)
        invariant MapPages(s, v, f, num, attr) == MapPages(View(), v + k, f + k, num - k, attr)
      {
        ghost var t := View();
        assert IsPage(v + k);
        ok := MapPage(v + k, f + k, attr);
        if !ok { return; }
        MappingOne(t, v + k, f + k, attr);
        SmallPagesNext(t, View(), v + k, num - k, Entry(f + k, LeafFlags(attr)));
        k := k + 1;
      }
      MappingPages(s, v, f, num, attr);
      return true;
    }

    /** Give the table below entry `i` of `n` back if it is empty; the frame allocator's answer is
        only logged. */
    method CollapseTable(entry: nat, table: nat, ghost v: nat, ghost n: Node, ghost i: nat) returns (pruned: bool)
      requires HasWindow(mem, cr3) && IsPage(v) && Level(cr3, v, n, i, entry, table) && i < PTE_COUNT
      requires Table(mem, n).Some? && Table(mem, Sub(n, i)).Some?
      modifies this`mem, this`pm
      ensures View() == Collapse(old(View()), n, i) && pruned == old(View().AllZero(Sub(n, i)))
    {
      LevelReaches(View(), v, n, i, entry, table, 0);
      hide HwWalk, Level, I4, I3, I2, I1, IsPage;
      pruned := IsTableFree(table, v, n, i, entry);
      if pruned {
        var e := LoadEntry(entry, n, i);
        if pm.IsUsed(e.frame) { pm := pm.Mark(e.frame, 1, false); }
        StoreEntry(entry, ZERO, n, i);
      }
    }

    /** Collapse the path of a page whose entry was just cleared. */
    method CollapsePath(v: nat)
      requires View().WF() && IsPage(v) && Table(mem, N3(cr3, v)).Some?
      modifies this`mem, this`pm, this`tasks
      ensures View() == PageMap.CollapsePath(old(View()), v)
    {
      hide HwWalk, I4, I3, I2, I1, Pml4Addr, PdptAddr, PdAddr, PtAddr, Reaches, Collapse, TopGuarded, OthersStay,
        Undisturbed, EmptyOnlyOn, Tidy, IsPage;
      ghost var s := View();
      ReadyToCollapse(s, v);
      var p := CollapseTable(PdAddr(v) + I2(v) * PTE_SIZE, PtAddr(v), v, N2(cr3, v), I2(v));
      Collapsing(s, N2(cr3, v), I2(v), v);
      ghost var s3 := View();
      ReadyToCollapse(s3, v);
      p := CollapseTable(PdptAddr(v) + I3(v) * PTE_SIZE, PdAddr(v), v, N1(cr3, v), I3(v));
      Collapsing(s3, N1(cr3, v), I3(v), v);
      ghost var s2 := View();
      ReadyToCollapse(s2, v);
      p := CollapseTable(Pml4Addr() + I4(v) * PTE_SIZE, PdptAddr(v), v, Top(cr3), I4(v));
      if p {
        AlertTasks();
      }
      assert View() == CollapseTop(s2, v) by { CollapseTopIs(s2, v); }
    }

    /** Unmap one page; false if it is not mapped or the frame allocator refuses its frame. */
    method UnmapPage(v: nat, save: bool) returns (ok: bool)
      requires View().WF() && View().NoEmptyTable() && IsPage(v) && !InHuge(mem, cr3, v) && FreeSafeAt(View(), v, save)
      modifies this`mem, this`pm, this`tasks
      ensures UnmapOne(old(View()), v, save) == (View(), ok)
    {
      hide HwWalk, I4, I3, I2, I1, PtAddr, Reaches, IsPage, OthersStay, Undisturbed, EmptyOnlyOn, TopGuarded,
        PageMap.CollapsePath;
      ghost var s := View();
      var entry := EntryFromVaddr(v);
      if entry == None { return false; }
      var e := LoadEntry(entry.value, N3(cr3, v), I1(v));
      assert e == Lookup(mem, cr3, v);
      if FromPmm in e.flags && !save {
        if !pm.IsUsed(e.frame) { return false; }
        FreeingFrame(s, e.frame);
        pm := pm.Mark(e.frame, 1, false);
      }
      ghost var u := View();
      assert u.WF() && u.NoEmptyTable() by { if u != s { FollowsRoots(s, u); SameTree(s, u); } }
      SamePath(s, u, entry.value, N3(cr3, v), I1(v));
      LookupChain(u, v);
      StoreEntry(entry.value, ZERO, N3(cr3, v), I1(v));
      ClearingLeaf(u, v);
      CollapsePath(v);
      return true;
    }

    /** `vmm_unmap`: unmap pages `[v, v + num)`, stopping at the first that fails. */
    method Unmap(v: nat, num: nat, save: bool) returns (ok: bool)
      requires View().WF() && View().NoEmptyTable() && SmallPages(View(), v, num) && FreeSafe(View(), v, num, save)
      modifies this`mem, this`pm, this`tasks
      ensures UnmapPages(old(View()), v, num, save) == (View(), ok)
      ensures View().WF() && View().NoEmptyTable()
      ensures ok ==> RangeUnmapped(old(View()), View(), v, num)
    {
      hide UnmapOne, Undisturbed, OthersStay, TopGuarded, TasksFollow, Lookup, InHuge, I4, I3, I2, I1, FreeSafeAt;
      ghost var s := View();
      var k := 0;
      while k < num
        invariant 0 <= k <= num
        invariant View().WF() && View().NoEmptyTable()
        invariant SmallPages(View(), v + k, num - k) && FreeSafe(View(), v + k, num - k, save)
        invariant UnmapPages(s, v, num, save) == UnmapPages(View(), v + k, num - k, save)
      {
        ghost var t := View();
        assert IsPage(v + k) && FreeSafeAt(t, v + k, save);
        UnmappingOne(t, v + k, save);
        ok := UnmapPage(v + k, save);
        if !ok { return; }
        SmallPagesNext(t, View(), v + k, num - k, ZERO);
        FreeSafeNext(t, View(), v + k, num - k, save);
        k := k + 1;
      }
      ghost var j := UnmappingPages(s, v, num, save);
      return true;
    }

    /** `__vmm_find_contiguous`: the lowest run of unmapped pages in the user or the kernel area.
        The scan has no end of its own, so there must be a run (`w`) before the window. */
    method FindContiguous(num: nat, align: nat, user: bool, ghost w: nat) returns (start: nat)
      requires View().WF() && num > 0 && AreaStart(user) <= w && FitsAt(View(), w, num, align)
      requires forall u: nat :: AreaStart(user) <= u < w + num ==> IsPage(u)
      ensures AreaStart(user) <= start && FitsAt(View(), start, num, align)
      ensures forall q: nat :: AreaStart(user) <= q < start ==> !FitsAt(View(), q, num, align)
      ensures !user && align == 0 ==> Find(View(), num) == Some(start)
    {
      hide Lookup, IsPage, AlignedAt, PageTables.Space.WF;
      var pos, cur := AreaStart(user), 0;
      start := 0;
      while num > cur
        invariant AreaStart(user) <= pos && 0 <= cur <= num
        invariant cur > 0 ==> start == pos - cur >= AreaStart(user) && AlignedAt(start, align)
        invariant cur > 0 ==> forall u: nat :: start <= u < pos ==> Lookup(mem, cr3, u) == ZERO
        invariant forall q: nat :: AreaStart(user) <= q < pos - cur ==> !FitsAt(View(), q, num, align)
        decreases w + num - pos
      {
        assert FitsAt(View(), w, num, align) && pos < w + num;
        if cur == 0 {
          if !AlignedAt(pos, align) {
            pos := pos + 1;
            continue;
          }
          start := pos;
        }
        assert IsPage(pos);
        var entry := EntryFromVaddr(pos);
        if entry != None {
          assert forall q: nat :: pos - cur <= q <= pos ==> !FitsAt(View(), q, num, align);
          cur := 0;
        } else {
          cur := cur + 1;
        }
        pos := pos + 1;
      }
      if !user && align == 0 { LowestFound(View(), num, start, w); }
    }

    /** `vmm_map` without alignment, for the kernel: fresh frames at the lowest run of unmapped pages. */
    method Map(num: nat, ghost w: nat) returns (start: Option<nat>, starved: bool)
      requires View().WF() && FIRST <= w && RunUnmapped(View(), w, num)
      requires forall u: nat :: FIRST <= u < w + num ==> IsPage(u)
      modifies this`mem, this`pm, this`tasks
      ensures match MapKernel(old(View()), num)
              case MappedAt(t, at, _) => View() == t && start == Some(at) && !starved
              case NoFrames => View() == old(View()) && start == None && !starved
              case Stuck => start == None && starved
    {
      hide Lookup, InHuge, IsPage, MapPages, Find, PageTables.Space.WF, PageTables.Space.NotTable, RangeMapped;
      if num == 0 { return None, false; }
      ghost var s := View();
      var at := FindContiguous(num, 0, false, w);
      assert pm.Valid() by { WFPm(s); }
      var (marked, got) := Alloc(pm, num, 0);
      if got == None { return None, false; }
      FoundUnmapped(s, num);
      MarkingRun(s, got.value, num);
      pm := marked;
      assert View() == s.(pm := s.pm.Mark(got.value, num, true));
      var ok := MapToPaddr(got.value, at, num, KERNEL_PAGES);
      if !ok { return None, true; }
      return Some(at), false;
    }

    /** The checks of `vmm_map_exact`. A first page that already has its frame is skipped, and the count
        shrinks while it is still compared with. */
    method CheckExact(f: Frame, v: nat, num: nat, attr: Attr, kernelEnd: nat) returns (passes: bool, skip: nat)
      requires View().WF() && SmallPages(View(), v, num)
      ensures passes <==> ExactPasses(View(), f, v, num, attr, kernelEnd)
      ensures passes ==> skip == Skip(View(), f, v, num)
    {
      hide Lookup, IsPage, PageTables.Space.WF, InHuge;
      ghost var s := View();
      var n, cur := num, 0;
      skip := 0;
      while n > cur
        invariant 0 <= cur && skip == (if cur > 0 then Skip(s, f, v, num) else 0) && n == num - skip
        invariant cur <= n || (Skip(s, f, v, num) == 1 && num == 1 && cur == 1)
        invariant forall u: nat :: v <= u < v + cur ==>
                      InArea(u, kernelEnd) && (attr.reuse || Lookup(mem, cr3, u) == ZERO)
        decreases num - cur
      {
        if !InArea(v + cur, kernelEnd) { break; }
        assert IsPage(v + cur) && !InHuge(mem, cr3, v + cur);
        var entry := EntryFromVaddr(v + cur);
        if entry == None {
          cur := cur + 1;
          continue;
        }
        ghost var e := Lookup(mem, cr3, v + cur);
        var e' := LoadEntry(entry.value, N3(cr3, v + cur), I1(v + cur));
        assert e' == e by { LookupChain(s, v + cur); }
        if cur == 0 && e'.frame == f {
          skip := 1;
          n := n - 1;
        }
        if !attr.reuse { break; }
        cur := cur + 1;
      }
      passes := cur == n;
    }

    /** `vmm_map_exact`: map pages from `v` on to frames from `f` on, if the checks pass. The address
        returned is one page further if the first page was skipped. */
    method MapExact(f: Frame, v: nat, num: nat, attr: Attr, kernelEnd: nat) returns (start: Option<nat>, starved: bool)
      requires View().WF() && SmallPages(View(), v, num)
      modifies this`mem, this`pm, this`tasks
      ensures match ExactMap(old(View()), f, v, num, attr, kernelEnd)
              case Done(t) => View() == t && start == Some(v + Skip(old(View()), f, v, num)) && !starved
              case Refused => View() == old(View()) && start == None && !starved
              case Starved => start == None && starved
    {
      hide Lookup, IsPage, PageTables.Space.WF, MapPages, InHuge, RangeMapped, ExactPasses;
      var passes, skip := CheckExact(f, v, num, attr, kernelEnd);
      if !passes { return None, false; }
      assert SmallPages(View(), v + skip, num - skip);
      var ok := MapToPaddr(f + skip, v + skip, num - skip, attr);
      if ok { return Some(v + skip), false; }
      return None, true;
    }
  }

  // ---- the areas that pages may be mapped in

  /** First page of the user or the kernel area; page 0 is left out. */
  function AreaStart(user: bool): nat { if user then 1 else FIRST }

  /** Byte alignment of the canonical address of page `u`. */
  predicate AlignedAt(u: nat, align: nat) {
    align == 0 || (u * PAGE_SIZE + if u >= FIRST then SIGN_EXTENSION else 0) % align == 0
  }

  /** `num` pages from `u` on are unmapped, and `u` is aligned. */
  ghost predicate FitsAt(s: Space, u: nat, num: nat, align: nat) {
    AlignedAt(u, align) && RunUnmapped(s, u, num)
  }

  /** Without an alignment, the lowest run of the kernel area is what `Find` finds. */
  lemma LowestFound(s: Space, num: nat, start: nat, w: nat)
    requires FIRST <= start && FIRST <= w && num > 0 && FitsAt(s, start, num, 0) && FitsAt(s, w, num, 0)
    requires forall u: nat :: FIRST <= u < w + num ==> IsPage(u)
    requires forall q: nat :: FIRST <= q < start ==> !FitsAt(s, q, num, 0)
    ensures Find(s, num) == Some(start)
  {
    hide RunUnmapped;
    assert !IsPage(WINDOW_PAGE);
    assert start <= w && w + num <= WINDOW_PAGE;
    assert forall q: nat :: FitsAt(s, q, num, 0) == RunUnmapped(s, q, num);
    FindIs(s, num, start);
  }

  lemma ReadyToCollapse(s: Space, v: nat)
    requires s.WF() && IsPage(v)
    ensures HasWindow(s.mem, s.cr3) && s.HasSlot(N1(s.cr3, v), I3(v)) && s.HasSlot(N2(s.cr3, v), I2(v))
    ensures s.HasSlot(Top(s.cr3), I4(v)) && I4(v) < PTE_COUNT && I3(v) < PTE_COUNT && I2(v) < PTE_COUNT
    ensures N1(s.cr3, v).Depth() == 1 && N2(s.cr3, v).Depth() == 2
    ensures N1(s.cr3, v).Root() == s.cr3 && N2(s.cr3, v).Root() == s.cr3
    ensures Level(s.cr3, v, N2(s.cr3, v), I2(v), PdAddr(v) + I2(v) * PTE_SIZE, PtAddr(v))
    ensures Level(s.cr3, v, N1(s.cr3, v), I3(v), PdptAddr(v) + I3(v) * PTE_SIZE, PdAddr(v))
    ensures Level(s.cr3, v, Top(s.cr3), I4(v), Pml4Addr() + I4(v) * PTE_SIZE, PdptAddr(v))
    ensures OnPath(s, N1(s.cr3, v), v) && OnPath(s, N2(s.cr3, v), v) && OnPath(s, N3(s.cr3, v), v)
    ensures Table(s.mem, N3(s.cr3, v)).Some? ==> Table(s.mem, N2(s.cr3, v)).Some?
    ensures Table(s.mem, N2(s.cr3, v)).Some? ==> Table(s.mem, N1(s.cr3, v)).Some?
  {
    WFWindow(s);
    PathInTree(s, v);
    IndexBounds(v);
    hide HwWalk, I4, I3, I2, I1, Pml4Addr, PdptAddr, PdAddr, PtAddr, IsPage;
  }

  lemma CollapseTopIs(s: Space, v: nat)
    ensures CollapseTop(s, v) ==
              if s.AllZero(N1(s.cr3, v)) then Alert(Collapse(s, Top(s.cr3), I4(v))) else Collapse(s, Top(s.cr3), I4(v))
  {
  }

  /** What the next level needs to know. */
  lemma ReadyBelow(s: Space, v: nat)
    requires s.WF() && IsPage(v)
    ensures s.HasSlot(N1(s.cr3, v), I3(v)) && s.HasSlot(N2(s.cr3, v), I2(v)) && s.pm.Valid()
    ensures N1(s.cr3, v).Depth() == 1 && N2(s.cr3, v).Depth() == 2
    ensures N1(s.cr3, v).Root() == s.cr3 && N2(s.cr3, v).Root() == s.cr3
    ensures Huge !in Slot(s.mem, N1(s.cr3, v), I3(v)).flags
    ensures Level(s.cr3, v, N1(s.cr3, v), I3(v), PdptAddr(v) + I3(v) * PTE_SIZE, PdAddr(v))
    ensures Level(s.cr3, v, N2(s.cr3, v), I2(v), PdAddr(v) + I2(v) * PTE_SIZE, PtAddr(v))
    ensures Table(s.mem, N3(s.cr3, v)).Some? ==> Reaches(s, PtAddr(v) + I1(v) * PTE_SIZE, N3(s.cr3, v), I1(v))
  {
    WFWindow(s);
    EntriesReached(s, v);
    PathInTree(s, v);
    hide HwWalk, I4, I3, I2, I1, Pml4Addr, PdptAddr, PdAddr, PtAddr, Reaches;
  }

  lemma SamePath(s: Space, t: Space, a: nat, n: Node, i: nat)
    requires t.mem == s.mem && t.cr3 == s.cr3 && Reaches(s, a, n, i)
    ensures Reaches(t, a, n, i)
  {
  }

  /** Right after a new table is hooked in, before it is cleared, the window reaches it. */
  lemma HungTable(s: Space, v: nat, n: Node, i: nat, entry: nat, table: nat, e: Entry)
    requires s.WF() && IsPage(v) && Level(s.cr3, v, n, i, entry, table) && s.HasSlot(n, i) && n.Depth() < 3
    requires Table(s.mem, n).Some? && Slot(s.mem, n, i) == ZERO && IsTable(e)
    ensures var t := Write(s, n, i, e); HwWalk(t.mem, s.cr3, table) == Some(e.frame * PAGE_SIZE)
  {
    var t := Write(s, n, i, e);
    NotBelowSelf(n, Sub(n, i));
    StoreElsewhere(s, n, i, e, n);
    assert Table(t.mem, Sub(n, i)) == Some(e.frame);
    WFWindow(s);
    assert HasWindow(t.mem, s.cr3) by { WindowStays(s, n, i, e); }
    hide HwWalk, Level, I4, I3, I2, I1, IsPage;
    LevelReaches(t, v, n, i, entry, table, 0);
  }

  lemma WindowStays(s: Space, n: Node, i: nat, e: Entry)
    requires s.WF() && s.HasSlot(n, i)
    ensures HasWindow(Write(s, n, i, e).mem, s.cr3)
  {
    WFWindow(s);
    assert s.InTree(Top(s.cr3)) && Table(s.mem, Top(s.cr3)) == Some(s.cr3);
  }

  lemma TableAligned(r: Frame, v: nat, n: Node, i: nat, entry: nat, table: nat)
    requires Level(r, v, n, i, entry, table)
    ensures table % PAGE_SIZE == 0
  {
    IndexBounds(v);
    var w := WINDOW;
    IndexesOfAddr(w, w, w, I4(v), 0);
    IndexesOfAddr(w, w, I4(v), I3(v), 0);
    IndexesOfAddr(w, I4(v), I3(v), I2(v), 0);
    hide I4, I3, I2, I1, IndexesToAddr;
  }
}
